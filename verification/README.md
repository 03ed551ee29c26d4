# Survey answer normalisation, modelled in Dafny

This project models the per-answer stage of a survey-processing pipeline.
The pipeline takes free-text answers about professions, written in Russian,
and derives the columns stored for each answer:

- the text that is analysed, chosen from a category/value pair separated by a pipe character;
- the words of that text, with abbreviations expanded;
- the words after spell correction, plus the number of out-of-vocabulary words;
- the word count, the verb count and a negation flag;
- the tokens;
- the normalised tokens, with stopwords removed, in sorted order.

Each stage is a pure function over `seq<string>`. The foreign capabilities are
parameters, bundled in `AnalyseAnswers.Resources`:

- the spell-correction dictionary lookup (`Preprocess.Lookup`, suggestions best first);
- the tag set of the morphological analyser's top-ranked parse;
- the sentence word segmenter;
- lower-casing;
- the Unicode alphanumeric test inside `\w`;
- the token normaliser;
- the external stopword list.

Modules:

- `Text` holds the Python `str` operations the code relies on. These are
  `split()`, `strip()`, `split('|')`, `' '.join`, `in` and `replace`. Its
  whitespace predicate is exactly the set of characters for which Python's
  `str.isspace()` holds.
- `Ordering` holds Python's code-point ordering of strings and `list.sort()`.
- `Seqs` holds the subsequence relation and position counting.
- `Preprocess` follows `src/data/preprocess.py`.
- `AnalyseAnswers` follows the per-record loop body of `src/data/analyse_answers.py`.
  Its `Derive` function is the derivation of one record.

The model follows the code in three places where one might expect more:

- The normalised tokens are sorted but not deduplicated.
- The verb-count override is the single word `слесарь`.
- No temporal-reference flag is computed.

Two assumptions close gaps in the code:

- `normalize_tokens` is imported (`src/data/analyse_answers.py:8`) but is not
  defined in `src/data/preprocess.py`. It is a parameter with no contract.
- `drop_stopwords` is called with an `extra_stop_words` keyword
  (`src/data/analyse_answers.py:109`). Its definition takes one parameter
  (`src/data/preprocess.py:30`). The model takes the evident intent: the filter
  takes a stopword set, and the pipeline passes the external list together with
  `EXTRA_STOPWORDS`.

## Model

| member | source | states |
|---|---|---|
| `Text.Words` | src/data/analyse_answers.py:86 | `split()` yields only non-empty, whitespace-free words, and yields none exactly when the text is all whitespace |
| `Text.WordsOfJoin` | src/data/analyse_answers.py:114 | re-splitting the single-space join of words returns the same words |
| `Text.SplitOn` | src/data/analyse_answers.py:79 | splitting on the pipe character yields one more piece than there are separators, no piece contains the separator, and joining the pieces with the separator restores the text |
| `Text.Strip` | src/data/analyse_answers.py:79 | `strip()` returns a slice that neither starts nor ends with whitespace; only whitespace is cut away on either side |
| `Text.Replace` | src/data/analyse_answers.py:84 | `replace` is the identity when the pattern does not occur, and it keeps the length when the pattern and the replacement are the same length |
| `Text.ReplaceItHyphen` | src/data/analyse_answers.py:84 | `replace('IT-', 'IT ')` turns exactly the hyphens that follow `IT` into spaces; every other character stays in place |
| `Text.Join` | src/data/analyse_answers.py:82 | `' '.join`; no contract of its own. `Text.WordsOfJoin` and `Text.SplitOn` state its round trips with `split()` and `split('|')`, and `Text.JoinAvoids` states that it adds no character beyond the parts and the separator |
| `Text.JoinAvoids` | src/data/analyse_answers.py:82 | a character absent from every part and from the separator is absent from the join, so joining pipe-free fields gives pipe-free text |
| `Text.Contains` | src/data/analyse_answers.py:84 | the substring test `'IT-' in value`; no contract of its own, characterised by `Text.ContainsIffOccurs` |
| `Text.ContainsIffOccurs` | src/data/analyse_answers.py:84 | the test holds exactly when the pattern occurs as a slice of the text at some position |
| `Text.SplitOnTwo` | src/data/analyse_answers.py:79 | a text with one separator splits into the pieces before and after it |
| `Ordering.LessEq` | src/data/analyse_answers.py:111 | the comparison `list.sort()` uses on strings; no contract of its own, characterised by `Ordering.LessEqIffPrefixOrFirstDifference` and the total-order lemmas |
| `Ordering.LessEqIffPrefixOrFirstDifference` | src/data/analyse_answers.py:111 | `a <= b` holds exactly when `a` is a prefix of `b` or, at the first position where they differ, `a` has the smaller code point |
| `Ordering.LessEqReflexive` | src/data/analyse_answers.py:111 | every string is at most itself |
| `Ordering.LessEqTotal` | src/data/analyse_answers.py:111 | any two strings are comparable |
| `Ordering.LessEqAntisymmetric` | src/data/analyse_answers.py:111 | two strings each at most the other are equal |
| `Ordering.LessEqTransitive` | src/data/analyse_answers.py:111 | the ordering is transitive |
| `Ordering.Sort` | src/data/analyse_answers.py:111 | sorting returns a non-decreasing rearrangement (same multiset) of its input |
| `Ordering.SortedUnique` | src/data/analyse_answers.py:111 | two sorted lists with the same multiset of strings are equal |
| `Ordering.SortIgnoresOrder` | src/data/analyse_answers.py:111 | sorting two rearrangements of the same strings gives the same list |
| `Preprocess.UnfoldAbbreviation` | src/data/preprocess.py:41-49 | `unfold_abbreviation`; no contract of its own. The lemmas below fix it completely: it distributes over concatenation (`UnfoldAppend`), and a single word becomes itself when it is not a key (`UnfoldKeepsUnknown`) or the whitespace split of its expansion when it is (`UnfoldSinglePass`) |
| `Preprocess.UnfoldAppend` | src/data/preprocess.py:41-49 | expansion of a concatenation is the concatenation of the expansions |
| `Preprocess.UnfoldWithoutAbbreviations` | src/data/preprocess.py:46-47 | a word list with no abbreviation passes through unchanged |
| `Preprocess.UnfoldKeepsUnknown` | src/data/preprocess.py:45-47 | a word not in the map comes out once, unchanged, between the expansions of the words around it |
| `Preprocess.UnfoldSinglePass` | src/data/preprocess.py:45-47 | an abbreviation is replaced by exactly the whitespace split of its expansion, between the expansions of the words around it |
| `Preprocess.UnfoldIsNotIdempotent` | src/data/preprocess.py:45-47 | expansion runs once: if an expansion repeats its own abbreviation, a second pass expands it again |
| `Preprocess.UnfoldGivesWords` | src/data/preprocess.py:46 | expanding whitespace-free, non-empty words yields only such words |
| `Preprocess.CheckWord` | src/data/preprocess.py:61-74 | the decision for one word adds one to the count exactly when the word is out of vocabulary, and keeps the word then; otherwise it gives the first suggestion's term |
| `Preprocess.SpellCheck` | src/data/preprocess.py:51-78 | the output has as many words as the input; each word is kept when it is out of vocabulary (at most three characters, no suggestion, or a top suggestion with count ≤ 0) and is otherwise replaced by the top suggestion; the count is the number of out-of-vocabulary positions and is at most the number of words |
| `Preprocess.SpellCheckIgnoresLookupOfShortWords` | src/data/preprocess.py:63-64 | the lookup is consulted only for words longer than three characters: lookups that agree on those give the same result |
| `Preprocess.SpellCheckAppend` | src/data/preprocess.py:60-76 | spell-checking a concatenation concatenates the corrected words and adds the out-of-vocabulary counts |
| `Preprocess.SpellCheckShortWord` | src/data/preprocess.py:63-74 | a word of at most three characters, at any position between other words, is returned unchanged in its place and adds exactly one to the out-of-vocabulary count |
| `Preprocess.SpellCheckChangedWord` | src/data/preprocess.py:64-68 | a changed word was longer than three characters and was replaced by the first suggestion's term, and that suggestion's count is positive |
| `Preprocess.SpellCheckGivesWords` | src/data/preprocess.py:60-76 | when the input words and all dictionary terms are whitespace-free and non-empty, so are the corrected words |
| `Preprocess.DropStopwords` | src/data/preprocess.py:30-33 | the result is an order-preserving subsequence of the input. It holds no stopword, and keeps every other word exactly as often as the input has it |
| `Preprocess.DropStopwordsKeepsClean` | src/data/preprocess.py:33 | a list without stopwords passes through unchanged |
| `Preprocess.DropStopwordsIdempotent` | src/data/preprocess.py:33 | removing stopwords twice is the same as removing them once |
| `Preprocess.WordShapeIsPrefixMatch` | src/data/preprocess.py:15 | the two-character test is equivalent to an anchored match of `[\w-]{2,}`, which needs a word-character prefix of length at least two |
| `Preprocess.LowerWordShaped` | src/data/preprocess.py:28 | the comprehension yields as many tokens as there are word-shaped tokens; every output is the lower-cased form of a word-shaped token, and every word-shaped token's lower-cased form is in the output |
| `Preprocess.LowerWordShapedAppend` | src/data/preprocess.py:28 | filtering a concatenation concatenates the filtered parts, so the order and multiplicity of the input are kept |
| `Preprocess.LowerWordShapedOne` | src/data/preprocess.py:28 | a single token becomes its lower-cased form when it is word-shaped and is dropped otherwise; with `LowerWordShapedAppend` this fixes the comprehension's result for every input |
| `Preprocess.TokenizeDropPunct` | src/data/preprocess.py:25-28 | `tokenize_drop_punkt` yields one token per word-shaped segment of the sentence, at most as many as the segments |
| `AnalyseAnswers.Fields` | src/data/analyse_answers.py:79 | the stripped fields number one more than the separators, and none contains the pipe character |
| `AnalyseAnswers.SelectAnswer` | src/data/analyse_answers.py:78-84 | an answer without a pipe character is kept unchanged. With one, the result never contains a pipe character. For the IT roles it is all stripped fields joined by single spaces and starts with `IT <role>`. Otherwise it is the second stripped field with exactly its `IT-` hyphens made spaces, and later fields are discarded |
| `AnalyseAnswers.SelectFromFields` | src/data/analyse_answers.py:80-84 | given pipe-free stripped fields, the choice is pipe-free; for `IT` with one of the three roles it is all fields joined by single spaces and starts with `IT <role>`; otherwise it is the second field with exactly its `IT-` hyphens made spaces |
| `AnalyseAnswers.SpaceItHyphens` | src/data/analyse_answers.py:84 | the guarded replacement keeps the length and changes exactly the hyphens that follow `IT` into spaces |
| `AnalyseAnswers.SelectValueOfPair` | src/data/analyse_answers.py:78-84 | a non-IT category/value pair around one pipe character, with a hyphen-free value selects the stripped value so `Продажи`, `Менеджер по продажам` around the pipe give `Менеджер по продажам` |
| `AnalyseAnswers.HasNegative` | src/data/analyse_answers.py:95-97 | the flag is 0 or 1, and it is 1 exactly when one of `нет`, `не`, `ни`, `без` is among the words |
| `AnalyseAnswers.CountVerbs` | src/data/analyse_answers.py:25-36 | the count equals the number of positions whose word is not `слесарь` and whose top-parse tags include `VERB` or `INFN`, so it lies between 0 and the number of words |
| `AnalyseAnswers.CountVerbsAppend` | src/data/analyse_answers.py:29-34 | the verb count of a concatenation is the sum of the verb counts |
| `AnalyseAnswers.CountVerbsSkipsOverride` | src/data/analyse_answers.py:30-31 | inserting `слесарь` anywhere leaves the verb count unchanged |
| `AnalyseAnswers.CountVerbsIgnoresTagsOfOverride` | src/data/analyse_answers.py:31-32 | the analyser is not consulted for `слесарь`: analysers that agree on the other words give the same count |
| `AnalyseAnswers.DropAndSort` | src/data/analyse_answers.py:109-111 | the stored normalised tokens are sorted, contain no stopword, and keep every other normalised token exactly as often as it occurs |
| `AnalyseAnswers.DropAndSortIgnoresOrder` | src/data/analyse_answers.py:109-111 | rearranging the normalised tokens does not change the stored sequence |
| `AnalyseAnswers.Derive` | src/data/analyse_answers.py:74-120 | the corrected words are the expanded words with each one kept when it is out of vocabulary and otherwise replaced by its first suggestion's term; `n_words` is their number, which equals the number of expanded words; `n_out_of_vocab` is the number of out-of-vocabulary expanded words and is at most `n_words`. `n_verbs` is the number of corrected words that are not `слесарь` and are tagged `VERB` or `INFN`. `has_negative` is 0/1 and is 1 exactly when a negation word is among the corrected words. The tokens are the tokenization of the space-joined corrected words, one per word-shaped segment. The normalised tokens are sorted, free of the external and extra stopwords, and otherwise a rearrangement of the normaliser's output on the tokens |
| `AnalyseAnswers.CorrectedText` | src/data/analyse_answers.py:114 | the `corrected` column splits back into the corrected words whenever those are whitespace-free and non-empty |
| `AnalyseAnswers.BlankAnswer` | src/data/analyse_answers.py:86-120 | an empty or all-whitespace answer gives zero words, zero out-of-vocabulary words, zero verbs, no negation and an empty corrected text; when the segmenter returns no token for the empty sentence the tokens are empty, and when the normaliser also maps no tokens to none the normalised tokens are empty |
| `AnalyseAnswers.NegationSurvivesSpellCheck` | src/data/analyse_answers.py:92-97 | negation words are at most three characters long, so spell correction keeps them, and a negation word present after expansion always sets the flag |
| `AnalyseAnswers.CorrectedTextRoundTrip` | src/data/analyse_answers.py:114-116 | when dictionary terms are whitespace-free words, the stored corrected text splits back into exactly the corrected words, so `n_words` is its word count |

## Left out

- The SymSpell index and its lookup (`src/data/preprocess.py:9`, `17-22`, `64`) are not modelled. The lookup is a function parameter returning suggestions best first. No deletion index or edit distance is modelled, because neither is implemented in these files.
- The pymorphy2 analyser (`src/data/analyse_answers.py:10`, `13`, `32`) is not modelled. It becomes the tag set of the top-ranked parse of a word.
- NLTK's `word_tokenize`, the NLTK stopword corpus and the corpus downloads (`src/data/preprocess.py:5-12`, `16`) are foreign code. They become a segmenter parameter and a stopword-set parameter.
- `str.lower` and Unicode's alphanumeric class inside `\w` are Unicode tables. They are parameters.
- `normalize_tokens` is not part of this model. Its definition is not in `src/data/preprocess.py`, so it is a parameter without a contract.
- `read_abbreviations_dictionary` (`src/data/preprocess.py:35-39`) is CSV reading, and it ignores its `filename` argument. The abbreviation table is a map parameter.
- The click command, the CSV reading and writing, the column check and tqdm (`src/data/analyse_answers.py:39-73`, `113-123`) are I/O plumbing. `Derive` returns the record whose fields are written to the columns. The text columns are the single-space joins of its sequences.
- Answers are assumed to be strings. A missing cell read by pandas as a float would raise at `'|' in answer`, and that failure is not modelled.
- `src/data/extract_verbs.py` is a report over the same analyser, built on pandas aggregation and printing. It is not part of this model.
- Text.Replace: requires a non-empty pattern. The empty-pattern behaviour of `str.replace` is never used here.
- Preprocess.LowerWordShaped: its own contract states the count and membership in both directions but not order or multiplicity; `Preprocess.LowerWordShapedAppend` and `Preprocess.LowerWordShapedOne` state those, because a per-position ensures on this recursive function exhausts the solver's resources in the lemmas about it.
- AnalyseAnswers.BlankAnswer: the empty token and normalised-token sequences are stated only under the assumptions that the segmenter returns no token for the empty sentence and the normaliser maps no tokens to none, because both are parameters without a contract.
- Text.Words: does not state how word boundaries are found; the whitespace split is characterised only by its words being non-empty and whitespace-free, and by the round trip `Text.WordsOfJoin`.
- Per-record determinism and independence are not stated as lemmas. They follow from `Derive` being a function of the answer and the resources.
