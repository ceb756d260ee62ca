# Trigram service of the blog application

This project models the trigram service of the blog application,
`app/blog/services.py`, in Dafny. It also proves what the service guarantees
about the trigrams it extracts and stores.

- **Cleansing** (`_cleanse_text`). The text is lowered with `str.lower`. Every
  character of the regular-expression class `[\W\d\s]` is deleted. What is
  left goes through `unidecode`.
- **Trigram extraction** (`_get_trigrams`). A character trigram
  `CountVectorizer` is fitted on the cleansed text, and the first six feature
  names are returned. The vectorizer lowers the document and collapses runs
  of whitespace. Its feature names are the distinct three-character windows,
  in ascending Python string order. Fitting raises `ValueError` when there is
  no window at all.
- **Storing the trigrams** (`update_post_trigrams`, `update_comment_trigrams`).
  The record is looked up by key, and `None` comes back when there is none.
  Otherwise the record's `trigrams` field becomes the trigrams joined by
  single spaces, and the record is saved.

Modules:

- `PyText` (`pytext.dfy`): the Python string operations used. It covers
  `str.lower`, the classes `\w`, `\d` and `\s`, and `unidecode`. ASCII
  behaviour is written out concretely. Non-ASCII behaviour comes from a
  `CharTables` parameter: Unicode case mapping, Unicode character classes and
  unidecode's transliteration table. `unidecode` always yields ASCII.
- `StringOrder` (`string_order.dfy`): Python's `<` on strings, which is
  lexicographic by code point. It also holds sorting into a strictly
  ascending list, and the facts about such lists that the service relies on.
- `CharVectorizer` (`vectorizer.dfy`): fitting the character trigram
  vectorizer on one document and reading its feature names.
- `Services` (`services.py`'s four functions, in `services.dfy`):
  - `CleanseText`, `GetTrigrams`, and `Join`/`Split` for the stored form.
  - The class `Blog`, which holds the post and comment tables as maps from key
    to record.
  - The two update methods.
- `TrigramExamples` (`trigram_examples.dfy`): concrete texts worked through
  with the general lemmas.
- `Results` (`results.dfy`): `Option` and `Result`.

Behaviour worth knowing, as the code has it:

- **Alphabetical, not by frequency.** The code returns the six alphabetically
  first distinct trigrams, not the six most frequent. `get_feature_names()`
  lists the vocabulary in sorted order, and the counts from `fit_transform`
  are discarded. For `"the cat sat on the mat"`, the one trigram that occurs
  twice, `"the"`, is not returned.
- **Short text raises.** A text whose cleansed form is shorter than three
  characters raises `ValueError` (empty vocabulary); it does not give an empty
  list. This is modelled as `Err(EmptyVocabulary)`. The update methods pass
  the error on and save nothing.
- **Comments update posts.** `update_comment_trigrams` queries the post table
  (`services.py:21`), and comments have no `trigrams` field. So it updates and
  returns the post whose key equals the comment key, and it never touches a
  comment. Its return annotation `Optional[Comment]` (`services.py:20`) does not
  match this; the model returns the post, as the code does.
- **`unidecode` runs last.** `unidecode` runs after the stripping. For
  non-ASCII input, its output can therefore contain capitals, digits,
  whitespace or punctuation again. The vectorizer then lowers the capitals
  and collapses the whitespace runs. The model keeps this order. That is why
  the trigram lemmas speak of `AnalyzedText`, the text the vectorizer cuts
  windows from; for ASCII input, `AnalyzedText` is the cleansed text itself.

## Model

| member | source | states |
|---|---|---|
| `PyText.Lower` | app/blog/services.py:31 | `text.lower()`, character by character; on ASCII text see `LowerAscii` |
| `PyText.StripClass` | app/blog/services.py:31 | `re.sub('[\W\d\s]', '', …)`; on ASCII text, together with lowering and transliteration, see `CleanseAsciiText` |
| `PyText.Unidecode` | app/blog/services.py:31 | transliteration always yields ASCII text |
| `Services.CleanseText` | app/blog/services.py:30-31 | `_cleanse_text`: the result is always ASCII; its content is pinned down by `CleanseAsciiText`, `CleanseAppend` and the lemmas below |
| `PyText.LowerAscii` | app/blog/services.py:31 | on ASCII text, lowering keeps the length and lowers exactly the capitals A-Z |
| `Services.CleanseAsciiText` | app/blog/services.py:30-31 | on ASCII text, cleansing keeps exactly the letters (lowered) and the underscores, in order, and deletes digits, whitespace and punctuation |
| `Services.CleanseAppend` | app/blog/services.py:31 | cleansing works character by character: the cleansed concatenation is the concatenation of the cleansed parts, for any text |
| `Services.CleanseAsciiAlphabet` | app/blog/services.py:31 | cleansed ASCII text holds only lower-case letters and `_` |
| `Services.CleanseCleanText` | app/blog/services.py:31 | text of lower-case letters and `_` is left unchanged |
| `Services.CleanseIdempotent` | app/blog/services.py:31 | on ASCII text, cleansing twice equals cleansing once, and the trigrams of the cleansed text equal those of the original |
| `Services.CleanseIgnoresCase` | app/blog/services.py:31 | ASCII texts equal up to letter case cleanse alike and have the same trigrams |
| `Services.CleanseIgnoresNoise` | app/blog/services.py:31 | inserting an ASCII digit, whitespace or punctuation character anywhere changes neither the cleansed text nor the trigrams |
| `Services.CleanseIgnoresOtherNoise` | app/blog/services.py:31 | inserting a non-ASCII character whose lower-case form lies wholly in `[\W\d\s]` (a non-ASCII digit, space or dash, by the Unicode tables) anywhere changes neither the cleansed text nor the trigrams |
| `CharVectorizer.CharNgrams` | app/blog/services.py:37-41 | the windows of a text: there are `len - 2` of them (none below three characters), the i-th starts at i, and a string is among them exactly when it is a window |
| `CharVectorizer.CollapseWhitespace` | app/blog/services.py:37-41 | scikit-learn's `re.sub(r"\s\s+", " ", …)` before cutting windows: never lengthens the text; see `CollapseWithoutWhitespace` |
| `CharVectorizer.Analyze` | app/blog/services.py:37-41 | the preprocessing of `lowercase=True` and whitespace collapsing; on cleansed text it changes nothing (`AnalyzeCleanText`) |
| `CharVectorizer.FitFeatureNames` | app/blog/services.py:43-44 | `fit_transform` then `get_feature_names()`: a successful fit gives a non-empty, strictly ascending list of names; see `FitFeatureNamesSpec` |
| `CharVectorizer.CollapseWithoutWhitespace` | app/blog/services.py:37-41 | the vectorizer's whitespace collapsing leaves text without whitespace unchanged |
| `CharVectorizer.FitFeatureNamesSpec` | app/blog/services.py:37-43 | fitting fails with the empty-vocabulary error exactly when the analyzed text is shorter than three characters; otherwise the feature names are strictly ascending, are exactly the windows of the analyzed text, and number as many as the distinct windows |
| `StringOrder.SortedDistinct` | app/blog/services.py:43-44 | the feature-name order: the result is strictly ascending and has exactly the members of the input |
| `StringOrder.AscendingDeterminedByMembers` | app/blog/services.py:43-44 | two strictly ascending lists with the same members are equal, so the sorted vocabulary is unique |
| `StringOrder.AscendingPrefixDetermined` | app/blog/services.py:44 | the first k names of a sorted list are the only sorted k-list of its members that leaves out nothing below its own entries |
| `Services.AnalyzeCleanText` | app/blog/services.py:37-43 | the vectorizer's lowering and whitespace collapsing leave clean text unchanged |
| `Services.AnalyzedAsciiText` | app/blog/services.py:35-43 | for ASCII input, the vectorizer cuts its windows from the cleansed text itself |
| `Services.GetTrigrams` | app/blog/services.py:34-44 | `_get_trigrams`: a successful result holds between 1 and 6 trigrams; see `TrigramsFailOnShortText`, `TrigramsCount`, `TrigramsAreWindows`, `TrigramsAreSmallest` and `TrigramsDeterminedByOrder` |
| `Services.TrigramsFailOnShortText` | app/blog/services.py:34-43 | extraction fails, with the empty-vocabulary error, exactly when the analyzed text is shorter than three characters; for ASCII input, exactly when the cleansed text is |
| `Services.TrigramsCount` | app/blog/services.py:44 | a successful result holds `min(6, number of distinct windows)` trigrams, so between 1 and 6 |
| `Services.TrigramsAreWindows` | app/blog/services.py:37-43 | every trigram returned has length 3 and is a contiguous window of the analyzed text; for ASCII input, of the cleansed text |
| `Services.TrigramsAreSmallest` | app/blog/services.py:43-44 | the result is strictly ascending and is a prefix of the sorted distinct windows; every window left out is greater than every trigram returned |
| `Services.TrigramsDeterminedByOrder` | app/blog/services.py:43-44 | any strictly ascending list of windows, of the result's length, that leaves out nothing below its own entries is the result |
| `Services.TrigramsAlphabet` | app/blog/services.py:31-43 | every trigram is ASCII without capitals for any input, and for ASCII input is made of lower-case letters and `_` only |
| `Services.Join` | app/blog/services.py:15 | `" ".join(names)`; `SplitJoin` proves splitting on spaces undoes it |
| `Services.SplitJoin` | app/blog/services.py:15 | splitting a space-join of a non-empty list of space-free words on spaces gives the list back |
| `Services.StoredTrigramsSplitBack` | app/blog/services.py:15 | the trigrams of an ASCII text, joined with spaces for storage, split back into the same list |
| `Services.Blog.UpdatePostTrigrams` | app/blog/services.py:10-17 | a missing key returns `None` and changes nothing. An extraction error is returned with nothing saved. Otherwise only that post changes: its `trigrams` becomes the space-join of the trigrams of its body, and `save()` sets its `updated` date. That post is returned. Comments never change, and for an ASCII body the stored field splits back into the trigrams |
| `Services.Blog.UpdateCommentTrigrams` | app/blog/services.py:20-27 | the same as `UpdatePostTrigrams` for the post whose key is the comment key, because the lookup queries the post table; comments never change |
| `TrigramExamples.NoisyCatExample` | app/blog/services.py:30-44 | `"c-a1T"` cleanses to `"cat"`, as `"cat"` does, and both give the trigrams `["cat"]` |
| `TrigramExamples.ShortTextExamples` | app/blog/services.py:34-43 | `""` and `"ab"` make extraction fail with the empty-vocabulary error |
| `TrigramExamples.TrigramsOfSentenceCleansed` | app/blog/services.py:34-44 | any text that cleanses to `"thecatsatonthemat"` gives `["ato", "ats", "cat", "eca", "ema", "hec"]` |
| `TrigramExamples.SentenceExample` | app/blog/services.py:30-44 | `"the cat sat on the mat"` cleanses to `"thecatsatonthemat"` and gives `["ato", "ats", "cat", "eca", "ema", "hec"]` |
| `TrigramExamples.SentenceRepeatLeftOut` | app/blog/services.py:43-44 | `"the"` occurs twice among the windows of `"thecatsatonthemat"` but is not among its trigrams: the ranking is alphabetical, not by frequency |

## Left out

- Unicode behaviour is not modelled concretely. The Unicode case mapping of
  `str.lower`, the Unicode meaning of `\w`, `\d` and `\s`, and unidecode's
  transliteration table are parameters (`PyText.CharTables`), consulted only
  for non-ASCII characters.
- `str.lower` is modelled character by character. CPython's one
  context-dependent rule, the final form of capital sigma, is not modelled.
  Both sigma forms transliterate to `s`, so the cleansed text is the same.
- The count matrix returned by `fit_transform` is not modelled; the service
  discards it.
- `get_feature_names()` no longer exists in recent scikit-learn releases. The
  model follows the releases in which it exists.
- The vectorizer's other options (stop words, `max_df`/`min_df`, a fixed
  vocabulary) are not modelled; the service leaves them at their defaults.
- The ORM is not modelled: database queries, transactions and persistence,
  and `save()` beyond replacing the map entry and setting `updated`. The clock
  that `auto_now` reads is the `today` parameter of the update methods.
- Record fields other than `body`, `trigrams` and `updated` are carried along
  unchanged. The `DateField`/`DateTimeField` types are day numbers.
- Views, URL routing, admin registration, request middleware and migrations
  are not part of this model.
- `Services.Blog.UpdatePostTrigrams`: the split-back property of the stored
  field is stated only for ASCII bodies. For other input, `unidecode` can
  produce spaces inside a trigram, and then the split does not give the list
  back.
- `Services.Blog.UpdateCommentTrigrams`: the split-back property is stated
  only for ASCII bodies, for the same reason.
