/**
 The per-answer derivation of the survey pipeline: from one free-text answer
 to the corrected words, the word, out-of-vocabulary and verb counts, the
 negation flag, the tokens and the sorted normalised tokens.

 The morphological analyser (the tag set of a word's top-ranked parse), the
 token normaliser and the external stopword list are part of `Resources`;
 every derived field is a pure function of the answer and those resources.
 */
module AnalyseAnswers {
  import opened Text
  import opened Seqs
  import opened Ordering
  import opened Preprocess

  /** The stopwords added to the external list for the normalised tokens. */
  const ExtraStopwords: set<string> := {
    "участок", "отдел", "группа", "другой",
    "работа", "госуправление", "менеджер",
    "посредничество", "школьник", "безработный",
    "студент", "студентка", "ученик", "ученица",
    "поиск", "учёба", "школа",
    "родитель", "шея", "курс", "стипендия",
    "мама", "пенсионер", "пенсия",
    "год", "класс", "маленький"
  }

  /** Words whose presence sets the negation flag. */
  const NegationWords: set<string> := {"нет", "не", "ни", "без"}

  /** The category that is kept in front of some role names. */
  const ItCategory: string := "IT"

  /** The role names that stay joined to the `IT` category. */
  const ItRoles: set<string> := {"Администратор", "Аналитик", "Архитектор"}

  /** The word whose top-ranked parse is a verb although the answers mean the
      profession; it is never counted as a verb. */
  const VerbOverride: string := "слесарь"

  /** The read-only capabilities shared by all answers. */
  datatype Resources = Resources(
    abbreviations: AbbreviationMap,
    lookup: Lookup,                        // dictionary suggestions, best first
    tags: string -> set<string>,           // grammemes of the top-ranked parse
    segment: string -> seq<string>,        // word segmentation of a sentence
    lower: string -> string,               // lower-casing
    isAlnum: char -> bool,                 // Unicode alphanumeric class
    normalize: seq<string> -> seq<string>, // token normalisation
    stopwords: set<string>)                // the external stopword list

  /** The fields derived for one answer. The persisted columns are the
      space-joined `words`, `tokens` and `normalized`. */
  datatype AnswerRecord = AnswerRecord(
    words: seq<string>,
    nOutOfVocab: nat,
    nWords: nat,
    nVerbs: nat,
    hasNegative: nat,
    tokens: seq<string>,
    normalized: seq<string>)

  // ---------------------------------------------------------------------------
  // Category and value

  /** The stripped `|`-separated fields of an answer. */
  function Fields(answer: string): (r: seq<string>)
    ensures |r| == multiset(answer)['|'] + 1
    ensures forall i :: 0 <= i < |r| ==> '|' !in r[i]
  {
    var parts := SplitOn(answer, '|');
    seq(|parts|, i requires 0 <= i < |parts| => Strip(parts[i]))
  }

  /** The answer names one of the IT roles under the IT category. */
  predicate IsItRole(fields: seq<string>)
    requires |fields| >= 2
  {
    fields[0] == ItCategory && fields[1] in ItRoles
  }

  /** The text that is split into words: an answer without `|` as it is; for
      the IT roles, all fields joined by single spaces; otherwise the second
      field with every hyphen after `IT` turned into a space. */
  function SelectAnswer(answer: string): (r: string)
    ensures '|' !in answer ==> r == answer
    ensures '|' in answer ==> '|' !in r
    ensures '|' in answer && IsItRole(Fields(answer)) ==>
              r == Join(Fields(answer), " ") && ItCategory + " " + Fields(answer)[1] <= r
    ensures '|' in answer && !IsItRole(Fields(answer)) ==>
              var value := Fields(answer)[1];
              |r| == |value| && forall i :: 0 <= i < |value| ==> r[i] == (if HyphenAfterIT(value, i) then ' ' else value[i])
  {
    if '|' !in answer then answer
    else
      assert multiset(answer)['|'] > 0;
      SelectFromFields(Fields(answer))
  }

  /** The choice among the stripped fields of an answer that has a `|`: all
      fields joined for the IT roles, the value with its `IT-` hyphens spaced
      otherwise. */
  function SelectFromFields(fields: seq<string>): (r: string)
    requires |fields| >= 2
    requires forall i :: 0 <= i < |fields| ==> '|' !in fields[i]
    ensures '|' !in r
    ensures IsItRole(fields) ==> r == Join(fields, " ") && ItCategory + " " + fields[1] <= r
    ensures !IsItRole(fields) ==>
              |r| == |fields[1]| && forall i :: 0 <= i < |fields[1]| ==>
                r[i] == (if HyphenAfterIT(fields[1], i) then ' ' else fields[1][i])
  {
    if IsItRole(fields) then
      JoinAvoids(fields, " ", '|');
      JoinStart(fields, " ");
      Join(fields, " ")
    else
      var r := SpaceItHyphens(fields[1]);
      assert forall i :: 0 <= i < |r| ==> r[i] != '|';
      r
  }

  /** The value with every `IT-` written `IT `: the hyphens that follow `IT`
      become spaces and nothing else changes. */
  function SpaceItHyphens(value: string): (r: string)
    ensures |r| == |value|
    ensures forall i :: 0 <= i < |value| ==> r[i] == (if HyphenAfterIT(value, i) then ' ' else value[i])
  {
    ReplaceItHyphen(value);
    if Contains(value, "IT-") then Replace(value, "IT-", "IT ") else value
  }

  // ---------------------------------------------------------------------------
  // Word features

  /** `has_negative`: 1 when a negation word is among the words, 0 otherwise. */
  function HasNegative(words: seq<string>): (r: nat)
    ensures r <= 1
    ensures r == 1 <==> exists i :: 0 <= i < |words| && words[i] in NegationWords
  {
    if "нет" in words || "не" in words || "ни" in words || "без" in words then 1 else 0
  }

  /** The word is counted by `count_verbs`: it is not the override and its
      top-ranked parse is a verb or an infinitive. */
  predicate CountsAsVerb(tags: string -> set<string>, word: string) {
    word != VerbOverride && ("VERB" in tags(word) || "INFN" in tags(word))
  }

  /** `count_verbs`: the number of positions holding a verb. */
  function CountVerbs(tags: string -> set<string>, words: seq<string>): (r: nat)
    ensures r == |Positions(words, w => CountsAsVerb(tags, w))|
    ensures r <= |words|
  {
    if words == [] then
      assert Positions(words, w => CountsAsVerb(tags, w)) == {};
      0
    else
      var word := words[|words| - 1];
      PositionsSnoc(words, w => CountsAsVerb(tags, w));
      var verb := if word != VerbOverride then
                    (if "VERB" in tags(word) || "INFN" in tags(word) then 1 else 0)
                  else 0;
      CountVerbs(tags, words[..|words| - 1]) + verb
  }

  /** The verb count of a concatenation is the sum of the verb counts. */
  lemma {:induction false} CountVerbsAppend(tags: string -> set<string>, a: seq<string>, b: seq<string>)
    ensures CountVerbs(tags, a + b) == CountVerbs(tags, a) + CountVerbs(tags, b)
    decreases |b|
  {
    if b == [] {
      assert a + b == a;
    } else {
      CountVerbsAppend(tags, a, b[..|b| - 1]);
      assert (a + b)[..|a + b| - 1] == a + b[..|b| - 1];
    }
  }

  /** An occurrence of the override word never adds to the verb count. */
  lemma CountVerbsSkipsOverride(tags: string -> set<string>, before: seq<string>, after: seq<string>)
    ensures CountVerbs(tags, before + [VerbOverride] + after) == CountVerbs(tags, before + after)
  {
    CountVerbsAppend(tags, before + [VerbOverride], after);
    CountVerbsAppend(tags, before, [VerbOverride]);
    CountVerbsAppend(tags, before, after);
    assert [VerbOverride][..0] == [];
  }

  /** The analyser is consulted for every word except the override: analysers
      that agree on the other words give the same count. */
  lemma {:induction false} CountVerbsIgnoresTagsOfOverride(t1: string -> set<string>, t2: string -> set<string>,
                                                           words: seq<string>)
    requires forall i :: 0 <= i < |words| && words[i] != VerbOverride ==> t1(words[i]) == t2(words[i])
    ensures CountVerbs(t1, words) == CountVerbs(t2, words)
  {
    if words != [] {
      CountVerbsIgnoresTagsOfOverride(t1, t2, words[..|words| - 1]);
    }
  }

  // ---------------------------------------------------------------------------
  // Normalised tokens

  /** The last stage: drop the stopwords from the normalised tokens and sort
      what is left. */
  function DropAndSort(normalized: seq<string>, stopwords: set<string>): (r: seq<string>)
    ensures Sorted(r)
    ensures forall i :: 0 <= i < |r| ==> r[i] !in stopwords
    ensures forall w :: w !in stopwords ==> multiset(r)[w] == multiset(normalized)[w]
  {
    var kept := DropStopwords(normalized, stopwords);
    var r := Sort(kept);
    forall i | 0 <= i < |r|
      ensures r[i] !in stopwords
    {
      assert r[i] in multiset(kept);
    }
    r
  }

  /** The stored tokens depend only on which normalised tokens occur how
      often, not on their order. */
  lemma DropAndSortIgnoresOrder(a: seq<string>, b: seq<string>, stopwords: set<string>)
    requires multiset(a) == multiset(b)
    ensures DropAndSort(a, stopwords) == DropAndSort(b, stopwords)
  {
    var da, db := DropStopwords(a, stopwords), DropStopwords(b, stopwords);
    forall w ensures multiset(da)[w] == multiset(db)[w] {
      if w in stopwords {
        assert w !in da && w !in db;
      }
    }
    assert multiset(da) == multiset(db);
    SortIgnoresOrder(da, db);
  }

  // ---------------------------------------------------------------------------
  // One answer

  /** The words of the selected text with abbreviations expanded: the input
      of the spell check. */
  function Expanded(res: Resources, answer: string): seq<string> {
    UnfoldAbbreviation(Words(SelectAnswer(answer)), res.abbreviations)
  }

  /** The derivation of one record from one answer. */
  function Derive(res: Resources, answer: string): (rec: AnswerRecord)
    ensures rec.nWords == |rec.words| == |Expanded(res, answer)|
    ensures rec.nOutOfVocab == |OutOfVocabPositions(res.lookup, Expanded(res, answer))| <= rec.nWords
    ensures var e := Expanded(res, answer);
            forall i :: 0 <= i < |rec.words| ==>
              rec.words[i] == (if OutOfVocab(res.lookup, e[i]) then e[i] else res.lookup(e[i])[0].term)
    ensures rec.nVerbs == |Positions(rec.words, w => CountsAsVerb(res.tags, w))| <= rec.nWords
    ensures rec.tokens == TokenizeDropPunct(res.segment, res.lower, res.isAlnum, Join(rec.words, " "))
    ensures |rec.tokens| == |Positions(res.segment(Join(rec.words, " ")), t => IsWordShaped(res.isAlnum, t))|
    ensures rec.hasNegative <= 1
    ensures rec.hasNegative == 1 <==> exists i :: 0 <= i < |rec.words| && rec.words[i] in NegationWords
    ensures Sorted(rec.normalized)
    ensures forall i :: 0 <= i < |rec.normalized| ==>
              rec.normalized[i] !in res.stopwords && rec.normalized[i] !in ExtraStopwords
    ensures forall w :: w !in res.stopwords && w !in ExtraStopwords ==>
              multiset(rec.normalized)[w] == multiset(res.normalize(rec.tokens))[w]
  {
    var expanded := Expanded(res, answer);
    var checked := SpellCheck(res.lookup, expanded);
    var words := checked.corrected;
    var tokens := TokenizeDropPunct(res.segment, res.lower, res.isAlnum, Join(words, " "));
    var normalized := DropAndSort(res.normalize(tokens), res.stopwords + ExtraStopwords);
    AnswerRecord(words, checked.outOfVocab, |words|, CountVerbs(res.tags, words), HasNegative(words),
                 tokens, normalized)
  }

  /** The `corrected` column: the words joined by single spaces, which split
      back into the words whenever they are whitespace-free and non-empty. */
  function CorrectedText(rec: AnswerRecord): (r: string)
    ensures (forall i :: 0 <= i < |rec.words| ==> IsWord(rec.words[i])) ==> Words(r) == rec.words
  {
    // Both branches give the join; the first also applies the round-trip
    // lemma, which needs the words to be words.
    if forall i :: 0 <= i < |rec.words| ==> IsWord(rec.words[i]) then
      WordsOfJoin(rec.words);
      Join(rec.words, " ")
    else
      Join(rec.words, " ")
  }

  /** An empty or blank answer gives no words and all-zero counts; when the
      segmenter finds no token in the empty sentence there are no tokens, and
      when the normaliser also maps no tokens to none, no normalised tokens. */
  lemma BlankAnswer(res: Resources, answer: string)
    requires AllSpace(answer)
    ensures var rec := Derive(res, answer);
            && rec.nWords == 0 && rec.nOutOfVocab == 0 && rec.nVerbs == 0 && rec.hasNegative == 0
            && CorrectedText(rec) == ""
            && (res.segment("") == [] ==> rec.tokens == [])
            && (res.segment("") == [] && res.normalize([]) == [] ==> rec.normalized == [])
  {
    assert forall i :: 0 <= i < |answer| ==> answer[i] != '|';
    assert SelectAnswer(answer) == answer;
    assert Words(answer) == [];
    assert UnfoldAbbreviation([], res.abbreviations) == [];
    var checked := SpellCheck(res.lookup, []);
    assert checked.corrected == [] && checked.outOfVocab == 0;
    var rec := Derive(res, answer);
    assert rec.words == [];
    assert Join(rec.words, " ") == "";
    if res.segment("") == [] {
      assert rec.tokens == LowerWordShaped([], res.lower, res.isAlnum) == [];
    }
  }

  /** The negation words are at most three characters long, so the spell
      check keeps them and the flag sees every one present after expansion. */
  lemma NegationSurvivesSpellCheck(res: Resources, answer: string)
    requires var expanded := UnfoldAbbreviation(Words(SelectAnswer(answer)), res.abbreviations);
             exists i :: 0 <= i < |expanded| && expanded[i] in NegationWords
    ensures Derive(res, answer).hasNegative == 1
  {
    var expanded := UnfoldAbbreviation(Words(SelectAnswer(answer)), res.abbreviations);
    var i :| 0 <= i < |expanded| && expanded[i] in NegationWords;
    assert |expanded[i]| <= MaxShortLength;
    var words := SpellCheck(res.lookup, expanded).corrected;
    assert words[i] == expanded[i];
    assert Derive(res, answer).words == words;
  }

  /** When every dictionary term is a word, the `corrected` column splits back
      into exactly the corrected words, so `n_words` is its word count. */
  lemma CorrectedTextRoundTrip(res: Resources, answer: string)
    requires forall w, k :: 0 <= k < |res.lookup(w)| ==> IsWord(res.lookup(w)[k].term)
    ensures var rec := Derive(res, answer);
            Words(CorrectedText(rec)) == rec.words && |Words(CorrectedText(rec))| == rec.nWords
  {
    var split := Words(SelectAnswer(answer));
    UnfoldGivesWords(split, res.abbreviations);
    var expanded := UnfoldAbbreviation(split, res.abbreviations);
    assert forall i :: 0 <= i < |expanded| ==> IsWord(expanded[i]);
    SpellCheckGivesWords(res.lookup, expanded);
    var rec := Derive(res, answer);
    assert rec.words == SpellCheck(res.lookup, expanded).corrected;
    WordsOfJoin(rec.words);
  }

  /** With one separator and a category/value pair that is not an IT role,
      the selected text is the stripped value; `Продажи | Менеджер по продажам`
      gives `Менеджер по продажам`. */
  lemma SelectValueOfPair(category: string, value: string)
    requires '|' !in category && '|' !in value && '-' !in value
    requires !(Strip(category) == ItCategory && Strip(value) in ItRoles)
    ensures SelectAnswer(category + "|" + value) == Strip(value)
  {
    var answer := category + "|" + value;
    SplitOnTwo(category, value, '|');
    assert answer[|category|] == '|';
    var fields := Fields(answer);
    assert fields == [Strip(category), Strip(value)];
    var r := SpaceItHyphens(fields[1]);
    assert forall i :: 0 <= i < |fields[1]| ==> !HyphenAfterIT(fields[1], i);
    assert r == fields[1];
  }
}
