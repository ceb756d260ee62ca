/** The blog's trigram service: cleansing a text, extracting its character
    trigrams, and storing them, space-separated, on a post. */
module Services {
  import opened PyText
  import opened StringOrder
  import opened CharVectorizer
  import opened Results

  /** `[0:6]`: at most this many trigrams are kept. */
  const TrigramLimit := 6

  function Min(a: int, b: int): int { if a <= b then a else b }

  /** `_cleanse_text`: lower the text, delete every character of the class
      `[\W\d\s]`, then transliterate what is left with `unidecode`. */
  function CleanseText(t: CharTables, text: string): (r: string)
    ensures IsAsciiText(r)
  {
    Unidecode(t, StripClass(t, Lower(t, text)))
  }

  /** `_get_trigrams`: the first `TrigramLimit` feature names of a character
      trigram vectorizer fitted on the cleansed text. The names are in
      alphabetical order, so these are the alphabetically first distinct
      trigrams, not the most frequent ones. Fitting raises on a vocabulary
      with no trigram, and so does this. */
  function GetTrigrams(t: CharTables, text: string): (r: Result<seq<string>, FitError>)
    ensures r.Ok? ==> 1 <= |r.value| <= TrigramLimit
  {
    match FitFeatureNames(t, CleanseText(t, text))
    case Err(e) => Err(e)
    case Ok(names) => Ok(if |names| <= TrigramLimit then names else names[..TrigramLimit])
  }

  // ----- cleansing

  /** A character cleansed ASCII text can consist of. */
  predicate IsCleanChar(c: char) { IsAsciiLowerLetter(c) || c == '_' }

  /** What cleansing leaves of one ASCII character: a letter, lowered, or the
      underscore (which `\w` includes); digits, whitespace and punctuation
      leave nothing. */
  function KeepClean(c: char): string
  {
    if IsAsciiUpper(c) || IsAsciiLowerLetter(c) || c == '_' then [AsciiLower(c)] else []
  }

  /** Cleansing works character by character, whatever the text holds. */
  lemma CleanseAppend(t: CharTables, a: string, b: string)
    ensures CleanseText(t, a + b) == CleanseText(t, a) + CleanseText(t, b)
  {
    CharwiseAppend(t, a, b);
    CharwiseAppend(t, Lower(t, a), Lower(t, b));
    CharwiseAppend(t, StripClass(t, Lower(t, a)), StripClass(t, Lower(t, b)));
  }

  lemma CleanseAsciiChar(t: CharTables, c: char)
    requires IsAscii(c)
    ensures CleanseText(t, [c]) == KeepClean(c)
  {
    CharwiseSingle(t, c);
    CharwiseSingle(t, AsciiLower(c));
    assert Unidecode(t, []) == [];
  }

  /** On ASCII text, cleansing keeps exactly the letters, lowered, and the
      underscores, in their order. */
  lemma {:induction false} CleanseAsciiText(t: CharTables, s: string)
    requires IsAsciiText(s)
    ensures CleanseText(t, s) == FlatMap(KeepClean, s)
  {
    if s != [] {
      assert s == [s[0]] + s[1..];
      CleanseAppend(t, [s[0]], s[1..]);
      CleanseAsciiChar(t, s[0]);
      CleanseAsciiText(t, s[1..]);
    }
  }

  /** Cleansed ASCII text holds only lower-case letters and underscores: no
      capital, digit, whitespace or punctuation. */
  lemma CleanseAsciiAlphabet(t: CharTables, s: string)
    requires IsAsciiText(s)
    ensures AllChars(IsCleanChar, CleanseText(t, s))
  {
    CleanseAsciiText(t, s);
    FlatMapAllChars(KeepClean, IsCleanChar, s);
  }

  /** Text made of lower-case letters and underscores is already clean. */
  lemma CleanseCleanText(t: CharTables, u: string)
    requires AllChars(IsCleanChar, u)
    ensures CleanseText(t, u) == u
  {
    CleanseAsciiText(t, u);
    FlatMapIdentity(KeepClean, u);
  }

  /** Cleansing cleansed ASCII text changes nothing, so the trigrams of the
      cleansed text are those of the original. */
  lemma CleanseIdempotent(t: CharTables, s: string)
    requires IsAsciiText(s)
    ensures CleanseText(t, CleanseText(t, s)) == CleanseText(t, s)
    ensures GetTrigrams(t, CleanseText(t, s)) == GetTrigrams(t, s)
  {
    CleanseAsciiAlphabet(t, s);
    CleanseCleanText(t, CleanseText(t, s));
  }

  /** ASCII texts that differ only in the case of their letters cleanse alike
      and so have the same trigrams. */
  lemma CleanseIgnoresCase(t: CharTables, a: string, b: string)
    requires IsAsciiText(a) && IsAsciiText(b) && |a| == |b|
    requires forall i :: 0 <= i < |a| ==> AsciiLower(a[i]) == AsciiLower(b[i])
    ensures CleanseText(t, a) == CleanseText(t, b)
    ensures GetTrigrams(t, a) == GetTrigrams(t, b)
  {
    CleanseAsciiText(t, a);
    CleanseAsciiText(t, b);
    FlatMapCongruent(KeepClean, a, b);
  }

  /** Putting an ASCII digit, whitespace or punctuation character anywhere into
      any text changes neither its cleansed form nor its trigrams. */
  lemma CleanseIgnoresNoise(t: CharTables, a: string, c: char, b: string)
    requires IsAscii(c) && !IsAsciiUpper(c) && !IsAsciiLowerLetter(c) && c != '_'
    ensures CleanseText(t, a + [c] + b) == CleanseText(t, a + b)
    ensures GetTrigrams(t, a + [c] + b) == GetTrigrams(t, a + b)
  {
    CleanseAppend(t, a + [c], b);
    CleanseAppend(t, a, [c]);
    CleanseAppend(t, a, b);
    CleanseAsciiChar(t, c);
  }

  /** The same for a non-ASCII character whose lower-case form lies wholly in
      `[\W\d\s]`, such as a non-ASCII digit, space or dash: it is deleted
      before transliteration, so it changes nothing either. */
  lemma CleanseIgnoresOtherNoise(t: CharTables, a: string, c: char, b: string)
    requires !IsAscii(c)
    requires forall i :: 0 <= i < |t.lowerOther(c)| ==> InStripClass(t, t.lowerOther(c)[i])
    ensures CleanseText(t, a + [c] + b) == CleanseText(t, a + b)
    ensures GetTrigrams(t, a + [c] + b) == GetTrigrams(t, a + b)
  {
    CleanseAppend(t, a + [c], b);
    CleanseAppend(t, a, [c]);
    CleanseAppend(t, a, b);
    CharwiseSingle(t, c);
    StripWholeText(t, t.lowerOther(c));
    assert Unidecode(t, []) == [];
  }

  // ----- trigrams

  /** The text the vectorizer cuts windows from, for a given input text. */
  function AnalyzedText(t: CharTables, text: string): string
  {
    Analyze(t, CleanseText(t, text))
  }

  /** Cleansed ASCII text passes through the vectorizer's own lowering and
      whitespace collapsing unchanged. */
  lemma AnalyzeCleanText(t: CharTables, u: string)
    requires AllChars(IsCleanChar, u)
    ensures Analyze(t, u) == u
  {
    LowerAscii(t, u);
    assert Lower(t, u) == u;
    CollapseWithoutWhitespace(t, u);
  }

  /** For ASCII input the windows are cut from the cleansed text itself. */
  lemma AnalyzedAsciiText(t: CharTables, text: string)
    requires IsAsciiText(text)
    ensures AnalyzedText(t, text) == CleanseText(t, text)
  {
    CleanseAsciiAlphabet(t, text);
    AnalyzeCleanText(t, CleanseText(t, text));
  }

  /** Extraction fails, with the vectorizer's empty-vocabulary error, exactly
      when the analyzed text is shorter than three characters; for ASCII
      input, exactly when the cleansed text is. */
  lemma TrigramsFailOnShortText(t: CharTables, text: string)
    ensures GetTrigrams(t, text).Err? <==> |AnalyzedText(t, text)| < NgramSize
    ensures GetTrigrams(t, text).Err? ==> GetTrigrams(t, text).error == EmptyVocabulary
    ensures IsAsciiText(text) ==> (GetTrigrams(t, text).Err? <==> |CleanseText(t, text)| < NgramSize)
  {
    FitFeatureNamesSpec(t, CleanseText(t, text));
    if IsAsciiText(text) {
      AnalyzedAsciiText(t, text);
    }
  }

  /** At most six trigrams come back: six, or every distinct trigram when
      there are fewer. */
  lemma TrigramsCount(t: CharTables, text: string)
    requires GetTrigrams(t, text).Ok?
    ensures |GetTrigrams(t, text).value| == Min(TrigramLimit, |Vocabulary(AnalyzedText(t, text))|)
    ensures 1 <= |GetTrigrams(t, text).value| <= TrigramLimit
  {
    FitFeatureNamesSpec(t, CleanseText(t, text));
  }

  /** Every trigram returned is three consecutive characters of the analyzed
      text; for ASCII input, of the cleansed text. */
  lemma TrigramsAreWindows(t: CharTables, text: string)
    requires GetTrigrams(t, text).Ok?
    ensures forall w :: w in GetTrigrams(t, text).value ==>
      |w| == NgramSize && IsWindowOf(w, AnalyzedText(t, text))
    ensures IsAsciiText(text) ==>
      forall w :: w in GetTrigrams(t, text).value ==> IsWindowOf(w, CleanseText(t, text))
  {
    var names := FitFeatureNames(t, CleanseText(t, text)).value;
    FitFeatureNamesSpec(t, CleanseText(t, text));
    assert forall w :: w in GetTrigrams(t, text).value ==> w in names;
    if IsAsciiText(text) {
      AnalyzedAsciiText(t, text);
    }
  }

  /** The trigrams come back strictly ascending (so without repeats), as the
      first entries of the sorted vocabulary: any trigram of the text that is
      left out is above every one returned. */
  lemma TrigramsAreSmallest(t: CharTables, text: string)
    requires GetTrigrams(t, text).Ok?
    ensures StrictlyAscending(GetTrigrams(t, text).value)
    ensures var r := GetTrigrams(t, text).value;
      r == SortedDistinct(CharNgrams(AnalyzedText(t, text)))[..|r|]
    ensures var r := GetTrigrams(t, text).value;
      forall w :: IsWindowOf(w, AnalyzedText(t, text)) && w !in r ==>
        forall i :: 0 <= i < |r| ==> Less(r[i], w)
  {
    FitFeatureNamesSpec(t, CleanseText(t, text));
  }

  /** The trigrams are the only list with the properties above: any strictly
      ascending list of trigrams of the analyzed text, as long as the result,
      that leaves out nothing below its own entries, is the result. */
  lemma TrigramsDeterminedByOrder(t: CharTables, text: string, xs: seq<string>)
    requires GetTrigrams(t, text).Ok?
    requires StrictlyAscending(xs)
    requires forall w :: w in xs ==> IsWindowOf(w, AnalyzedText(t, text))
    requires |xs| == |GetTrigrams(t, text).value|
    requires forall w :: IsWindowOf(w, AnalyzedText(t, text)) && w !in xs ==>
      forall i :: 0 <= i < |xs| ==> Less(xs[i], w)
    ensures xs == GetTrigrams(t, text).value
  {
    var names := FitFeatureNames(t, CleanseText(t, text)).value;
    var r := GetTrigrams(t, text).value;
    FitFeatureNamesSpec(t, CleanseText(t, text));
    assert r == names[..|r|];
    AscendingPrefixDetermined(names, |r|, xs);
  }

  /** Every trigram is ASCII without capitals, whatever the input; for ASCII
      input it is made of lower-case letters and underscores only. */
  lemma TrigramsAlphabet(t: CharTables, text: string)
    requires GetTrigrams(t, text).Ok?
    ensures forall w :: w in GetTrigrams(t, text).value ==> AllChars(IsFoldedAscii, w)
    ensures IsAsciiText(text) ==>
      forall w :: w in GetTrigrams(t, text).value ==> AllChars(IsCleanChar, w)
  {
    var u := CleanseText(t, text);
    var a := AnalyzedText(t, text);
    LowerAscii(t, u);
    CollapseAllChars(t, IsFoldedAscii, Lower(t, u));
    TrigramsAreWindows(t, text);
    forall w | w in GetTrigrams(t, text).value ensures AllChars(IsFoldedAscii, w) {
      WindowAllChars(IsFoldedAscii, w, a);
    }
    if IsAsciiText(text) {
      CleanseAsciiAlphabet(t, text);
      AnalyzedAsciiText(t, text);
      forall w | w in GetTrigrams(t, text).value ensures AllChars(IsCleanChar, w) {
        WindowAllChars(IsCleanChar, w, a);
      }
    }
  }

  // ----- storing the trigrams

  /** `" ".join(names)` */
  function Join(names: seq<string>): string
  {
    if names == [] then ""
    else if |names| == 1 then names[0]
    else names[0] + " " + Join(names[1..])
  }

  /** `s.split(" ")`: the pieces between single spaces, empty ones included;
      never an empty list. */
  function Split(s: string): (r: seq<string>)
    ensures |r| >= 1
  {
    if s == [] then [""]
    else
      var rest := Split(s[1..]);
      if s[0] == ' ' then [""] + rest else [[s[0]] + rest[0]] + rest[1..]
  }

  predicate HasNoSpace(s: string) { forall i :: 0 <= i < |s| ==> s[i] != ' ' }

  lemma {:induction false} SplitWithoutSpace(a: string)
    requires HasNoSpace(a)
    ensures Split(a) == [a]
  {
    if a != [] {
      SplitWithoutSpace(a[1..]);
      assert a == [a[0]] + a[1..];
    }
  }

  lemma {:induction false} SplitAfterWord(a: string, b: string)
    requires HasNoSpace(a)
    ensures Split(a + " " + b) == [a] + Split(b)
  {
    if a == [] {
      assert a + " " + b == [' '] + b;
      assert (a + " " + b)[1..] == b;
    } else {
      assert (a + " " + b)[1..] == a[1..] + " " + b;
      SplitAfterWord(a[1..], b);
      assert a == [a[0]] + a[1..];
    }
  }

  /** Splitting the joined names on spaces gives the names back, provided
      there is at least one and none holds a space. */
  lemma {:induction false} SplitJoin(names: seq<string>)
    requires names != []
    requires forall k :: 0 <= k < |names| ==> HasNoSpace(names[k])
    ensures Split(Join(names)) == names
  {
    if |names| == 1 {
      SplitWithoutSpace(names[0]);
    } else {
      SplitAfterWord(names[0], Join(names[1..]));
      SplitJoin(names[1..]);
      assert names == [names[0]] + names[1..];
    }
  }

  /** The trigrams of an ASCII text, stored space-joined, split back into the
      same list. */
  lemma StoredTrigramsSplitBack(t: CharTables, body: string)
    requires IsAsciiText(body) && GetTrigrams(t, body).Ok?
    ensures Split(Join(GetTrigrams(t, body).value)) == GetTrigrams(t, body).value
  {
    var r := GetTrigrams(t, body).value;
    TrigramsAlphabet(t, body);
    TrigramsCount(t, body);
    forall k | 0 <= k < |r| ensures HasNoSpace(r[k]) {
      assert AllChars(IsCleanChar, r[k]);
    }
    SplitJoin(r);
  }

  /** A blog post; dates are day numbers. */
  datatype Post = Post(
    title: string,
    body: string,
    author: int,
    created: int,
    updated: int,
    trigrams: string)

  /** A comment on the post `post`. It has no trigram field. */
  datatype Comment = Comment(
    author: int,
    post: int,
    name: string,
    body: string,
    created: int,
    updated: int)

  /** The post and comment tables, keyed by primary key. */
  class Blog {
    var posts: map<int, Post>
    var comments: map<int, Comment>

    constructor (posts: map<int, Post>, comments: map<int, Comment>)
      ensures this.posts == posts && this.comments == comments
    {
      this.posts := posts;
      this.comments := comments;
    }

    /** `update_post_trigrams(post_id)`: `Ok(None)` when no post has that key;
        the vectorizer's error when the body has no trigram, with nothing
        saved; otherwise the post with its trigrams replaced by the
        space-joined list and its `updated` date set to `today` by `save()`,
        written back under its key. No other post and no comment changes. */
    method UpdatePostTrigrams(t: CharTables, postId: int, today: int)
      returns (r: Result<Option<Post>, FitError>)
      modifies this
      ensures comments == old(comments)
      ensures postId !in old(posts) ==> r == Ok(None) && posts == old(posts)
      ensures postId in old(posts) ==>
        match GetTrigrams(t, old(posts)[postId].body)
        case Err(e) => r == Err(e) && posts == old(posts)
        case Ok(names) =>
          var saved := old(posts)[postId].(trigrams := Join(names), updated := today);
          r == Ok(Some(saved)) && posts == old(posts)[postId := saved]
      ensures r.Ok? && r.value.Some? && IsAsciiText(r.value.value.body) ==>
        Split(posts[postId].trigrams) == GetTrigrams(t, posts[postId].body).value
    {
      if postId !in posts {
        return Ok(None);
      }
      var post := posts[postId];
      var names := GetTrigrams(t, post.body);
      if names.Err? {
        return Err(names.error);
      }
      post := post.(trigrams := Join(names.value));
      post := post.(updated := today);
      posts := posts[postId := post];
      if IsAsciiText(post.body) {
        StoredTrigramsSplitBack(t, post.body);
      }
      return Ok(Some(post));
    }

    /** `update_comment_trigrams(comment_id)`. The lookup goes to the post
        table, so this updates and returns the POST whose key equals
        `commentId`, exactly as `UpdatePostTrigrams` does; comments are never
        read or written. */
    method UpdateCommentTrigrams(t: CharTables, commentId: int, today: int)
      returns (r: Result<Option<Post>, FitError>)
      modifies this
      ensures comments == old(comments)
      ensures commentId !in old(posts) ==> r == Ok(None) && posts == old(posts)
      ensures commentId in old(posts) ==>
        match GetTrigrams(t, old(posts)[commentId].body)
        case Err(e) => r == Err(e) && posts == old(posts)
        case Ok(names) =>
          var saved := old(posts)[commentId].(trigrams := Join(names), updated := today);
          r == Ok(Some(saved)) && posts == old(posts)[commentId := saved]
      ensures r.Ok? && r.value.Some? && IsAsciiText(r.value.value.body) ==>
        Split(posts[commentId].trigrams) == GetTrigrams(t, posts[commentId].body).value
    {
      r := UpdatePostTrigrams(t, commentId, today);
    }
  }
}
