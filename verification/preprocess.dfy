/**
 The per-word text transforms of the answer pipeline: abbreviation expansion,
 the spell-check wrapper around a dictionary lookup, stopword removal and the
 word-shape filter of the tokenizer. The dictionary lookup, the word
 segmenter, lower-casing and Unicode's alphanumeric class are parameters.
 */
module Preprocess {
  import opened Text
  import opened Seqs

  // ---------------------------------------------------------------------------
  // Abbreviation expansion

  /** Abbreviation to expansion phrase. */
  type AbbreviationMap = map<string, string>

  /** The words one input word stands for: the whitespace split of its
      expansion when it is an abbreviation, the word itself otherwise. */
  function Expand(word: string, abbreviations: AbbreviationMap): seq<string> {
    if word in abbreviations then Words(abbreviations[word]) else [word]
  }

  /** `unfold_abbreviation`: every word is replaced by what it stands for, in
      one pass from left to right. */
  function UnfoldAbbreviation(words: seq<string>, abbreviations: AbbreviationMap): (r: seq<string>)
  {
    if words == [] then []
    else
      UnfoldAbbreviation(words[..|words| - 1], abbreviations) + Expand(words[|words| - 1], abbreviations)
  }

  /** A list without abbreviations passes through unchanged. */
  lemma {:induction false} UnfoldWithoutAbbreviations(words: seq<string>, abbreviations: AbbreviationMap)
    requires forall i :: 0 <= i < |words| ==> words[i] !in abbreviations
    ensures UnfoldAbbreviation(words, abbreviations) == words
  {
    if words != [] {
      var init := words[..|words| - 1];
      UnfoldWithoutAbbreviations(init, abbreviations);
      assert words == init + [words[|words| - 1]];
    }
  }

  /** Expansion distributes over concatenation of word lists. */
  lemma {:induction false} UnfoldAppend(a: seq<string>, b: seq<string>, abbreviations: AbbreviationMap)
    ensures UnfoldAbbreviation(a + b, abbreviations)
            == UnfoldAbbreviation(a, abbreviations) + UnfoldAbbreviation(b, abbreviations)
    decreases |b|
  {
    if b == [] {
      assert a + b == a;
    } else {
      var b', last := b[..|b| - 1], b[|b| - 1];
      var e := Expand(last, abbreviations);
      calc {
        UnfoldAbbreviation(a + b, abbreviations);
        { assert (a + b)[..|a + b| - 1] == a + b' && (a + b)[|a + b| - 1] == last; }
        UnfoldAbbreviation(a + b', abbreviations) + e;
        { UnfoldAppend(a, b', abbreviations); }
        UnfoldAbbreviation(a, abbreviations) + UnfoldAbbreviation(b', abbreviations) + e;
        UnfoldAbbreviation(a, abbreviations) + (UnfoldAbbreviation(b', abbreviations) + e);
      }
    }
  }

  /** A word that is not an abbreviation comes out once, unchanged, between
      the expansions of the words before and after it. */
  lemma UnfoldKeepsUnknown(before: seq<string>, w: string, after: seq<string>, abbreviations: AbbreviationMap)
    requires w !in abbreviations
    ensures UnfoldAbbreviation(before + [w] + after, abbreviations)
            == UnfoldAbbreviation(before, abbreviations) + [w] + UnfoldAbbreviation(after, abbreviations)
  {
    UnfoldAppend(before + [w], after, abbreviations);
    UnfoldAppend(before, [w], abbreviations);
  }

  /** An abbreviation is replaced by exactly the words of its expansion,
      which are not looked up again even when they are abbreviations too. */
  lemma UnfoldSinglePass(before: seq<string>, w: string, after: seq<string>, abbreviations: AbbreviationMap)
    requires w in abbreviations
    ensures UnfoldAbbreviation(before + [w] + after, abbreviations)
            == UnfoldAbbreviation(before, abbreviations) + Words(abbreviations[w])
               + UnfoldAbbreviation(after, abbreviations)
  {
    UnfoldAppend(before + [w], after, abbreviations);
    UnfoldAppend(before, [w], abbreviations);
  }

  /** Expanding twice is not expanding once: an abbreviation whose expansion
      repeats it (`ген` standing for `ген директор`) is expanded once per pass. */
  lemma UnfoldIsNotIdempotent(k: string, w: string, abbreviations: AbbreviationMap)
    requires k in abbreviations && w !in abbreviations
    requires Words(abbreviations[k]) == [k, w]
    ensures UnfoldAbbreviation([k], abbreviations) == [k, w]
    ensures UnfoldAbbreviation(UnfoldAbbreviation([k], abbreviations), abbreviations) == [k, w, w]
  {
    assert UnfoldAbbreviation([k], abbreviations) == UnfoldAbbreviation([], abbreviations) + Expand(k, abbreviations);
    UnfoldAppend([k], [w], abbreviations);
    assert [k] + [w] == [k, w];
  }

  /** Every word that expansion produces is a whitespace-free, non-empty word. */
  lemma {:induction false} UnfoldGivesWords(words: seq<string>, abbreviations: AbbreviationMap)
    requires forall i :: 0 <= i < |words| ==> IsWord(words[i])
    ensures forall j :: 0 <= j < |UnfoldAbbreviation(words, abbreviations)| ==>
              IsWord(UnfoldAbbreviation(words, abbreviations)[j])
  {
    if words != [] {
      var init, last := words[..|words| - 1], words[|words| - 1];
      UnfoldGivesWords(init, abbreviations);
      assert UnfoldAbbreviation(words, abbreviations)
             == UnfoldAbbreviation(init, abbreviations) + Expand(last, abbreviations);
    }
  }

  // ---------------------------------------------------------------------------
  // Spell check

  /** One entry of the dictionary lookup's answer: a term and its corpus count. */
  datatype Suggestion = Suggestion(term: string, count: int)

  /** The dictionary lookup for one word, best suggestion first. */
  type Lookup = string -> seq<Suggestion>

  /** Words of at most this many characters are never looked up. */
  const MaxShortLength: nat := 3

  /** The word is counted as out of vocabulary: it is short, the lookup has no
      suggestion for it, or the best suggestion was never seen in the corpus. */
  predicate OutOfVocab(lookup: Lookup, word: string) {
    |word| <= MaxShortLength || |lookup(word)| == 0 || lookup(word)[0].count <= 0
  }

  /** Positions of `words` that are out of vocabulary. */
  ghost function OutOfVocabPositions(lookup: Lookup, words: seq<string>): set<nat> {
    Positions(words, w => OutOfVocab(lookup, w))
  }

  /** What `spell_check` returns: the corrected words and how many of them
      were out of vocabulary. */
  datatype SpellResult = SpellResult(corrected: seq<string>, outOfVocab: nat)

  /** The decision for a single word: its replacement and whether it adds one
      to the out-of-vocabulary count. */
  function CheckWord(lookup: Lookup, word: string): (r: (string, nat))
    ensures r.1 <= 1
    ensures r.1 == 1 <==> OutOfVocab(lookup, word)
    ensures r.0 == if OutOfVocab(lookup, word) then word else lookup(word)[0].term
  {
    if |word| > MaxShortLength then
      var suggestions := lookup(word);
      if |suggestions| > 0 then
        var suggest := suggestions[0];
        if suggest.count > 0 then (suggest.term, 0) else (word, 1)
      else (word, 1)
    else (word, 1)
  }

  /** `spell_check`: each word is replaced by the best suggestion when that
      suggestion has a positive count and kept otherwise; the count is the
      number of positions that were out of vocabulary. */
  function SpellCheck(lookup: Lookup, words: seq<string>): (r: SpellResult)
    ensures |r.corrected| == |words|
    ensures forall i :: 0 <= i < |words| ==>
              r.corrected[i] == (if OutOfVocab(lookup, words[i]) then words[i] else lookup(words[i])[0].term)
    ensures r.outOfVocab == |OutOfVocabPositions(lookup, words)|
    ensures r.outOfVocab <= |words|
  {
    if words == [] then
      assert OutOfVocabPositions(lookup, words) == {};
      SpellResult([], 0)
    else
      var init := words[..|words| - 1];
      var prev := SpellCheck(lookup, init);
      var (corrected, oov) := CheckWord(lookup, words[|words| - 1]);
      PositionsSnoc(words, w => OutOfVocab(lookup, w));
      SpellResult(prev.corrected + [corrected], prev.outOfVocab + oov)
  }

  /** Short words are never looked up: two lookups that agree on the words
      longer than three characters give the same spell-check result. */
  lemma {:induction false} SpellCheckIgnoresLookupOfShortWords(l1: Lookup, l2: Lookup, words: seq<string>)
    requires forall i :: 0 <= i < |words| && |words[i]| > MaxShortLength ==> l1(words[i]) == l2(words[i])
    ensures SpellCheck(l1, words) == SpellCheck(l2, words)
  {
    if words != [] {
      SpellCheckIgnoresLookupOfShortWords(l1, l2, words[..|words| - 1]);
    }
  }

  /** Spell-checking a concatenation concatenates the corrected words and adds
      the out-of-vocabulary counts. */
  lemma SpellCheckAppend(lookup: Lookup, a: seq<string>, b: seq<string>)
    ensures SpellCheck(lookup, a + b)
            == SpellResult(SpellCheck(lookup, a).corrected + SpellCheck(lookup, b).corrected,
                           SpellCheck(lookup, a).outOfVocab + SpellCheck(lookup, b).outOfVocab)
  {
    SpellCheckAppendCorrected(lookup, a, b);
    SpellCheckAppendCount(lookup, a, b);
  }

  lemma SpellCheckAppendCorrected(lookup: Lookup, a: seq<string>, b: seq<string>)
    ensures SpellCheck(lookup, a + b).corrected == SpellCheck(lookup, a).corrected + SpellCheck(lookup, b).corrected
  {
    var x := SpellCheck(lookup, a + b).corrected;
    var y := SpellCheck(lookup, a).corrected + SpellCheck(lookup, b).corrected;
    forall i | 0 <= i < |x|
      ensures x[i] == y[i]
    {
      if i >= |a| {
        assert (a + b)[i] == b[i - |a|];
      }
    }
  }

  lemma {:induction false} SpellCheckAppendCount(lookup: Lookup, a: seq<string>, b: seq<string>)
    ensures SpellCheck(lookup, a + b).outOfVocab == SpellCheck(lookup, a).outOfVocab + SpellCheck(lookup, b).outOfVocab
    decreases |b|
  {
    if b == [] {
      assert a + b == a;
    } else {
      var b', last := b[..|b| - 1], b[|b| - 1];
      SpellCheckAppendCount(lookup, a, b');
      assert (a + b)[..|a + b| - 1] == a + b' && (a + b)[|a + b| - 1] == last;
      SpellCheckSnoc(lookup, a + b);
      SpellCheckSnoc(lookup, b);
    }
  }

  /** One more word appends its decision to the result. */
  lemma SpellCheckSnoc(lookup: Lookup, words: seq<string>)
    requires words != []
    ensures var prev := SpellCheck(lookup, words[..|words| - 1]);
            var (w, n) := CheckWord(lookup, words[|words| - 1]);
            SpellCheck(lookup, words) == SpellResult(prev.corrected + [w], prev.outOfVocab + n)
  {
  }

  /** A word of at most three characters, wherever it stands, is kept and adds
      exactly one to the out-of-vocabulary count whatever the lookup says. */
  lemma SpellCheckShortWord(lookup: Lookup, before: seq<string>, w: string, after: seq<string>)
    requires |w| <= MaxShortLength
    ensures SpellCheck(lookup, before + [w] + after).corrected
            == SpellCheck(lookup, before).corrected + [w] + SpellCheck(lookup, after).corrected
    ensures SpellCheck(lookup, before + [w] + after).outOfVocab
            == SpellCheck(lookup, before).outOfVocab + 1 + SpellCheck(lookup, after).outOfVocab
  {
    SpellCheckAppend(lookup, before + [w], after);
    SpellCheckAppend(lookup, before, [w]);
    SpellCheckSnoc(lookup, [w]);
    assert [w][..0] == [];
  }

  /** A longer word is replaced only by a best suggestion with a positive
      count; any change of a word is such a replacement. */
  lemma SpellCheckChangedWord(lookup: Lookup, words: seq<string>, i: nat)
    requires i < |words|
    requires SpellCheck(lookup, words).corrected[i] != words[i]
    ensures |words[i]| > MaxShortLength
    ensures |lookup(words[i])| > 0 && lookup(words[i])[0].count > 0
    ensures SpellCheck(lookup, words).corrected[i] == lookup(words[i])[0].term
  {
  }

  /** When the input words and all dictionary terms are whitespace-free,
      non-empty words, so are the corrected words. */
  lemma SpellCheckGivesWords(lookup: Lookup, words: seq<string>)
    requires forall i :: 0 <= i < |words| ==> IsWord(words[i])
    requires forall w, k :: 0 <= k < |lookup(w)| ==> IsWord(lookup(w)[k].term)
    ensures forall i :: 0 <= i < |words| ==> IsWord(SpellCheck(lookup, words).corrected[i])
  {
    var r := SpellCheck(lookup, words).corrected;
    forall i | 0 <= i < |r|
      ensures IsWord(r[i])
    {
      if !OutOfVocab(lookup, words[i]) {
        assert IsWord(lookup(words[i])[0].term);
      }
    }
  }

  // ---------------------------------------------------------------------------
  // Stopwords

  /** `drop_stopwords`: the words that are not stopwords, in their order. */
  function DropStopwords(words: seq<string>, stopwords: set<string>): (r: seq<string>)
    ensures IsSubsequence(r, words)
    ensures forall i :: 0 <= i < |r| ==> r[i] !in stopwords
    ensures forall w :: w !in stopwords ==> multiset(r)[w] == multiset(words)[w]
  {
    if words == [] then []
    else
      var rest := DropStopwords(words[1..], stopwords);
      assert words == [words[0]] + words[1..];
      if words[0] in stopwords then rest
      else
        assert IsSubsequence(rest, words[1..]);
        [words[0]] + rest
  }

  /** A list without stopwords passes through unchanged. */
  lemma {:induction false} DropStopwordsKeepsClean(words: seq<string>, stopwords: set<string>)
    requires forall i :: 0 <= i < |words| ==> words[i] !in stopwords
    ensures DropStopwords(words, stopwords) == words
  {
    if words != [] {
      DropStopwordsKeepsClean(words[1..], stopwords);
    }
  }

  /** Removing stopwords twice is removing them once. */
  lemma {:induction false} DropStopwordsIdempotent(words: seq<string>, stopwords: set<string>)
    ensures DropStopwords(DropStopwords(words, stopwords), stopwords) == DropStopwords(words, stopwords)
  {
    DropStopwordsKeepsClean(DropStopwords(words, stopwords), stopwords);
  }

  // ---------------------------------------------------------------------------
  // Tokenizer word-shape filter

  /** One character of the class `[\w-]`: Unicode alphanumeric, underscore
      or hyphen. The alphanumeric test is a parameter. */
  predicate IsWordChar(isAlnum: char -> bool, c: char) {
    isAlnum(c) || c == '_' || c == '-'
  }

  /** `IS_ALPHA_RE.match(token)`: the pattern `[\w-]{2,}` matches at the start
      of the token, which needs exactly its first two characters. */
  predicate IsWordShaped(isAlnum: char -> bool, token: string) {
    |token| >= 2 && IsWordChar(isAlnum, token[0]) && IsWordChar(isAlnum, token[1])
  }

  /** A prefix of `token` of at least two characters consists of `[\w-]`:
      the meaning of an anchored match of `[\w-]{2,}`. */
  ghost predicate HasWordPrefix(isAlnum: char -> bool, token: string) {
    exists n: nat :: 2 <= n <= |token| && AllWordChars(isAlnum, token[..n])
  }

  predicate AllWordChars(isAlnum: char -> bool, s: string) {
    forall i :: 0 <= i < |s| ==> IsWordChar(isAlnum, s[i])
  }

  /** The two-character test decides the regular-expression match. */
  lemma WordShapeIsPrefixMatch(isAlnum: char -> bool, token: string)
    ensures IsWordShaped(isAlnum, token) <==> HasWordPrefix(isAlnum, token)
  {
    if IsWordShaped(isAlnum, token) {
      assert AllWordChars(isAlnum, token[..2]);
    }
    if HasWordPrefix(isAlnum, token) {
      var n: nat :| 2 <= n <= |token| && AllWordChars(isAlnum, token[..n]);
      assert token[..n][0] == token[0] && token[..n][1] == token[1];
    }
  }

  /** The list comprehension of `tokenize_drop_punkt` over segmented tokens:
      the lower-cased tokens that have the word shape, in order. */
  function LowerWordShaped(tokens: seq<string>, lower: string -> string, isAlnum: char -> bool): (r: seq<string>)
    ensures |r| == |Positions(tokens, t => IsWordShaped(isAlnum, t))| <= |tokens|
    ensures forall j :: 0 <= j < |r| ==>
              exists i :: 0 <= i < |tokens| && IsWordShaped(isAlnum, tokens[i]) && r[j] == lower(tokens[i])
    ensures forall i :: 0 <= i < |tokens| && IsWordShaped(isAlnum, tokens[i]) ==> lower(tokens[i]) in r
  {
    if tokens == [] then
      assert Positions(tokens, t => IsWordShaped(isAlnum, t)) == {};
      []
    else
      var init, last := tokens[..|tokens| - 1], tokens[|tokens| - 1];
      var prev := LowerWordShaped(init, lower, isAlnum);
      PositionsSnoc(tokens, t => IsWordShaped(isAlnum, t));
      if IsWordShaped(isAlnum, last) then prev + [lower(last)] else prev
  }

  /** Filtering a concatenation concatenates the filtered parts. */
  lemma {:induction false} LowerWordShapedAppend(a: seq<string>, b: seq<string>,
                                                 lower: string -> string, isAlnum: char -> bool)
    ensures LowerWordShaped(a + b, lower, isAlnum)
            == LowerWordShaped(a, lower, isAlnum) + LowerWordShaped(b, lower, isAlnum)
    decreases |b|
  {
    if b == [] {
      assert a + b == a;
    } else {
      var b', last := b[..|b| - 1], b[|b| - 1];
      var e: seq<string> := if IsWordShaped(isAlnum, last) then [lower(last)] else [];
      calc {
        LowerWordShaped(a + b, lower, isAlnum);
        { LowerWordShapedSnoc(a + b, lower, isAlnum);
          assert (a + b)[..|a + b| - 1] == a + b' && (a + b)[|a + b| - 1] == last; }
        LowerWordShaped(a + b', lower, isAlnum) + e;
        { LowerWordShapedAppend(a, b', lower, isAlnum); }
        LowerWordShaped(a, lower, isAlnum) + LowerWordShaped(b', lower, isAlnum) + e;
        LowerWordShaped(a, lower, isAlnum) + (LowerWordShaped(b', lower, isAlnum) + e);
        { LowerWordShapedSnoc(b, lower, isAlnum); }
        LowerWordShaped(a, lower, isAlnum) + LowerWordShaped(b, lower, isAlnum);
      }
    }
  }

  /** One more token appends its lower-cased form when it is word-shaped. */
  lemma LowerWordShapedSnoc(tokens: seq<string>, lower: string -> string, isAlnum: char -> bool)
    requires tokens != []
    ensures var last := tokens[|tokens| - 1];
            LowerWordShaped(tokens, lower, isAlnum)
            == LowerWordShaped(tokens[..|tokens| - 1], lower, isAlnum)
               + if IsWordShaped(isAlnum, last) then [lower(last)] else []
  {
  }

  /** A single token becomes its lower-cased form when it is word-shaped and
      is dropped otherwise. */
  lemma LowerWordShapedOne(t: string, lower: string -> string, isAlnum: char -> bool)
    ensures LowerWordShaped([t], lower, isAlnum) == if IsWordShaped(isAlnum, t) then [lower(t)] else []
  {
    assert [t][..0] == [];
  }

  /** `tokenize_drop_punkt`: segment the sentence, keep the word-shaped tokens
      and lower-case them. */
  function TokenizeDropPunct(segment: string -> seq<string>, lower: string -> string,
                             isAlnum: char -> bool, sentence: string): (r: seq<string>)
    ensures |r| == |Positions(segment(sentence), t => IsWordShaped(isAlnum, t))| <= |segment(sentence)|
  {
    LowerWordShaped(segment(sentence), lower, isAlnum)
  }
}
