/** Worked instances of the trigram service on concrete texts. Each one
    follows from the general lemmas of `Services`. They show that noise is
    cleansed away, that short texts raise `EmptyVocabulary`, and that the six
    trigrams kept are the alphabetically first, not the most frequent. */
module TrigramExamples {
  import opened PyText
  import opened StringOrder
  import opened CharVectorizer
  import opened Results
  import opened Services

  /** `"cat"` is clean, and its only trigram is itself. */
  lemma CatTrigrams(t: CharTables)
    ensures CleanseText(t, "cat") == "cat"
    ensures GetTrigrams(t, "cat") == Ok(["cat"])
  {
    CleanseCleanText(t, "cat");
    AnalyzeCleanText(t, "cat");
    assert Window("cat", 0) == "cat";
    assert CharNgrams("cat") == ["cat"];
    assert SortedDistinct(["cat"]) == ["cat"];
  }

  /** `"c-a1T"` cleanses to `"cat"`, so its only trigram is `"cat"`. */
  lemma NoisyCatExample(t: CharTables)
    ensures CleanseText(t, "c-a1T") == CleanseText(t, "cat") == "cat"
    ensures GetTrigrams(t, "c-a1T") == GetTrigrams(t, "cat") == Ok(["cat"])
  {
    CleanseAsciiText(t, "c-a1T");
    assert "c-a1T" == ['c'] + "-a1T";
    CatTrigrams(t);
  }

  /** The empty text and a two-letter text have no trigram: extraction raises. */
  lemma ShortTextExamples(t: CharTables)
    ensures GetTrigrams(t, "") == Err(EmptyVocabulary)
    ensures GetTrigrams(t, "ab") == Err(EmptyVocabulary)
  {
    TrigramsFailOnShortText(t, "");
    TrigramsFailOnShortText(t, "ab");
    CleanseAsciiText(t, "");
    CleanseAsciiText(t, "ab");
  }

  const Sentence := "the cat sat on the mat"
  const SentenceCleansed := "thecatsatonthemat"
  const SentenceTrigrams := ["ato", "ats", "cat", "eca", "ema", "hec"]

  /** A space followed by a clean word cleanses to that word. */
  lemma CleanseSpacedWord(t: CharTables, a: string, w: string)
    requires AllChars(IsCleanChar, w)
    ensures CleanseText(t, a + " " + w) == CleanseText(t, a) + w
  {
    CleanseIgnoresNoise(t, a, ' ', w);
    CleanseAppend(t, a, w);
    CleanseCleanText(t, w);
  }

  lemma SentenceWords()
    ensures Sentence == "the" + " " + "cat" + " " + "sat" + " " + "on" + " " + "the" + " " + "mat"
    ensures SentenceCleansed == "the" + "cat" + "sat" + "on" + "the" + "mat"
  {
  }

  /** The sentence loses its spaces and nothing else. */
  lemma SentenceCleanse(t: CharTables)
    ensures CleanseText(t, Sentence) == SentenceCleansed
  {
    SentenceWords();
    CleanseCleanText(t, "the");
    var a1 := "the" + " " + "cat";
    var a2 := a1 + " " + "sat";
    var a3 := a2 + " " + "on";
    var a4 := a3 + " " + "the";
    CleanseSpacedWord(t, "the", "cat");
    CleanseSpacedWord(t, a1, "sat");
    CleanseSpacedWord(t, a2, "on");
    CleanseSpacedWord(t, a3, "the");
    CleanseSpacedWord(t, a4, "mat");
  }

  lemma SentenceWindowsHead()
    ensures CharNgrams(SentenceCleansed)[0] == "the"
    ensures CharNgrams(SentenceCleansed)[1] == "hec"
    ensures CharNgrams(SentenceCleansed)[2] == "eca"
    ensures CharNgrams(SentenceCleansed)[3] == "cat"
    ensures CharNgrams(SentenceCleansed)[4] == "ats"
  {
    var u := SentenceCleansed;
    var ws := CharNgrams(u);
    assert ws[0] == u[0..3] == "the";
    assert ws[1] == u[1..4] == "hec";
    assert ws[2] == u[2..5] == "eca";
    assert ws[3] == u[3..6] == "cat";
    assert ws[4] == u[4..7] == "ats";
  }

  lemma SentenceWindowsMiddle()
    ensures CharNgrams(SentenceCleansed)[5] == "tsa"
    ensures CharNgrams(SentenceCleansed)[6] == "sat"
    ensures CharNgrams(SentenceCleansed)[7] == "ato"
    ensures CharNgrams(SentenceCleansed)[8] == "ton"
    ensures CharNgrams(SentenceCleansed)[9] == "ont"
  {
    var u := SentenceCleansed;
    var ws := CharNgrams(u);
    assert ws[5] == u[5..8] == "tsa";
    assert ws[6] == u[6..9] == "sat";
    assert ws[7] == u[7..10] == "ato";
    assert ws[8] == u[8..11] == "ton";
    assert ws[9] == u[9..12] == "ont";
  }

  lemma SentenceWindowsTail()
    ensures CharNgrams(SentenceCleansed)[10] == "nth"
    ensures CharNgrams(SentenceCleansed)[11] == "the"
    ensures CharNgrams(SentenceCleansed)[12] == "hem"
    ensures CharNgrams(SentenceCleansed)[13] == "ema"
    ensures CharNgrams(SentenceCleansed)[14] == "mat"
  {
    var u := SentenceCleansed;
    var ws := CharNgrams(u);
    assert ws[10] == u[10..13] == "nth";
    assert ws[11] == u[11..14] == "the";
    assert ws[12] == u[12..15] == "hem";
    assert ws[13] == u[13..16] == "ema";
    assert ws[14] == u[14..17] == "mat";
  }

  /** The fifteen windows of the cleansed sentence, left to right; `"the"` is
      the only one that occurs twice. */
  lemma SentenceWindows()
    ensures CharNgrams(SentenceCleansed) ==
      ["the", "hec", "eca", "cat", "ats", "tsa", "sat", "ato", "ton", "ont", "nth", "the", "hem", "ema", "mat"]
  {
    SentenceWindowsHead();
    SentenceWindowsMiddle();
    SentenceWindowsTail();
  }

  /** The windows of the cleansed sentence that are not among its trigrams. */
  const SentenceOthers := ["the", "tsa", "sat", "ton", "ont", "nth", "hem", "mat"]

  lemma SentenceWindowsPartition()
    ensures forall w :: IsWindowOf(w, SentenceCleansed) ==> w in SentenceTrigrams || w in SentenceOthers
    ensures forall w :: w in SentenceTrigrams ==> IsWindowOf(w, SentenceCleansed)
  {
    SentenceWindows();
    assert forall w :: IsWindowOf(w, SentenceCleansed) ==> w in CharNgrams(SentenceCleansed);
  }

  lemma SentenceTrigramsAscending()
    ensures StrictlyAscending(SentenceTrigrams)
  {
  }

  lemma SentenceOthersAboveLast()
    ensures forall w :: w in SentenceOthers ==> Less("hec", w)
  {
  }

  /** The six trigrams named are windows of the cleansed sentence, in
      ascending order, and every other window sorts after all of them. */
  lemma SentenceWindowsAbove()
    ensures StrictlyAscending(SentenceTrigrams)
    ensures forall w :: w in SentenceTrigrams ==> IsWindowOf(w, SentenceCleansed)
    ensures forall w :: IsWindowOf(w, SentenceCleansed) && w !in SentenceTrigrams ==>
      forall i :: 0 <= i < |SentenceTrigrams| ==> Less(SentenceTrigrams[i], w)
  {
    var u, xs := SentenceCleansed, SentenceTrigrams;
    SentenceWindowsPartition();
    SentenceTrigramsAscending();
    SentenceOthersAboveLast();
    forall w, i | IsWindowOf(w, u) && w !in xs && 0 <= i < |xs|
      ensures Less(xs[i], w)
    {
      assert w in SentenceOthers;
      if i < 5 {
        LessTransitive(xs[i], xs[5], w);
      }
    }
  }

  lemma SentenceCleansedIsClean()
    ensures AllChars(IsCleanChar, SentenceCleansed)
  {
  }

  /** A text that cleanses to clean text `u` gives exactly `xs` when `xs` is
      six ascending windows of `u` and every other window sorts after them. */
  lemma TrigramsOfCleanText(t: CharTables, s: string, u: string, xs: seq<string>)
    requires CleanseText(t, s) == u && AllChars(IsCleanChar, u)
    requires StrictlyAscending(xs) && |xs| == TrigramLimit
    requires forall w :: w in xs ==> IsWindowOf(w, u)
    requires forall w :: IsWindowOf(w, u) && w !in xs ==>
      forall i :: 0 <= i < |xs| ==> Less(xs[i], w)
    ensures GetTrigrams(t, s) == Ok(xs)
  {
    AnalyzeCleanText(t, u);
    assert AnalyzedText(t, s) == u;
    assert IsWindowOf(xs[0], u);
    TrigramsFailOnShortText(t, s);
    assert forall w :: w in xs ==> w in CharNgrams(u);
    AscendingLength(xs);
    SubsetSize(Members(xs), Vocabulary(u));
    TrigramsCount(t, s);
    TrigramsDeterminedByOrder(t, s, xs);
  }

  /** Any text that cleanses to `"thecatsatonthemat"` gives that text's six
      alphabetically first trigrams. */
  lemma TrigramsOfSentenceCleansed(t: CharTables, s: string)
    requires CleanseText(t, s) == SentenceCleansed
    ensures GetTrigrams(t, s) == Ok(SentenceTrigrams)
  {
    SentenceCleansedIsClean();
    SentenceWindowsAbove();
    TrigramsOfCleanText(t, s, SentenceCleansed, SentenceTrigrams);
  }

  /** `"the cat sat on the mat"` gives the six alphabetically first trigrams
      of `"thecatsatonthemat"` (see `SentenceRepeatLeftOut` for the one
      trigram that occurs twice). */
  lemma SentenceExample(t: CharTables)
    ensures CleanseText(t, Sentence) == SentenceCleansed
    ensures GetTrigrams(t, Sentence) == Ok(SentenceTrigrams)
  {
    SentenceCleanse(t);
    TrigramsOfSentenceCleansed(t, Sentence);
  }

  /** `"the"` is the one trigram the cleansed sentence holds twice, and it is
      not among the trigrams extracted from it. */
  lemma SentenceRepeatLeftOut()
    ensures CharNgrams(SentenceCleansed)[0] == CharNgrams(SentenceCleansed)[11] == "the"
    ensures "the" !in SentenceTrigrams
  {
    SentenceWindows();
  }
}
