/** The Streamlit bot (chatbot.py): Bengali-script detection and the
    threshold best-match scan over the question/answer table.  The fuzzy
    score `fuzz.partial_ratio` is foreign and is taken as a parameter. */
module FuzzyBot {
  import opened Text
  import opened Opt

  /** Scores below this never select a row. */
  const Threshold: int := 80

  const FallbackBengali: string := "দুঃখিত, আমি এই প্রশ্নের উত্তর খুঁজে পাইনি। আরেকটি প্রশ্ন করুন।"
  const FallbackEnglish: string := "Sorry, I couldn't find an answer to this question. Please try another."

  /** A code point of the Bengali block U+0980..U+09FF of the Unicode Standard. */
  predicate IsBengaliChar(c: char) {
    '\U{0980}' <= c <= '\U{09FF}'
  }

  /** `is_bengali`: the regular expression `[ঀ-৿]` matches somewhere. */
  function IsBengali(s: string): (r: bool)
    ensures r <==> exists i | 0 <= i < |s| :: IsBengaliChar(s[i])
  {
    if s == [] then false
    else if IsBengaliChar(s[0]) then true
    else
      var r := IsBengali(s[1..]);
      assert forall i | 1 <= i < |s| :: s[i] == s[1..][i - 1];
      r
  }

  /** One row of the merged DataFrame built by `load_data`. */
  datatype BotRow = BotRow(queries: string, queriesBengali: string, answers: string, ansBengali: string)

  /** The column searched for each kind of input. */
  function QueryColumn(bengaliInput: bool, row: BotRow): string {
    if bengaliInput then row.queriesBengali else row.queries
  }

  /** The column answered from for each kind of input. */
  function AnswerColumn(bengaliInput: bool, row: BotRow): string {
    if bengaliInput then row.ansBengali else row.answers
  }

  function Fallback(bengaliInput: bool): string {
    if bengaliInput then FallbackBengali else FallbackEnglish
  }

  /** Python's `best_match or fallback`: `None` and the empty string are both
      false, so the reply is never empty. */
  function OrFallback(bestMatch: Option<string>, bengaliInput: bool): (r: string)
    ensures r != ""
    ensures bestMatch.Some? && bestMatch.value != "" ==> r == bestMatch.value
    ensures bestMatch.None? || bestMatch.value == "" ==> r == Fallback(bengaliInput)
  {
    if bestMatch == None || bestMatch == Some("") then Fallback(bengaliInput) else bestMatch.value
  }

  /** The score of one row: the normalised query against the lower-cased
      stored query of the input's language. */
  function RowScore(q: string, row: BotRow, bengaliInput: bool, partialRatio: (string, string) -> int): int {
    partialRatio(q, Lower(QueryColumn(bengaliInput, row)))
  }

  /** The score of every row, for the stripped, lower-cased query. */
  function RowScores(query: string, rows: seq<BotRow>, bengaliInput: bool,
                     partialRatio: (string, string) -> int): (s: seq<int>)
    ensures |s| == |rows|
  {
    seq(|rows|, j requires 0 <= j < |rows| => RowScore(Lower(Strip(query)), rows[j], bengaliInput, partialRatio))
  }

  /** White space around the query does not change any score. */
  lemma {:induction false} RowScoresIgnorePadding(pre: string, query: string, post: string, rows: seq<BotRow>,
                                                  bengaliInput: bool, partialRatio: (string, string) -> int)
    requires AllSpace(pre, IsPySpace) && AllSpace(post, IsPySpace)
    ensures RowScores(pre + query + post, rows, bengaliInput, partialRatio) == RowScores(query, rows, bengaliInput, partialRatio)
  {
    TrimIgnoresPadding(pre, query, post, IsPySpace);
    assert Strip(pre + query + post) == Strip(query);
  }

  /** Row `k` is the one the scan keeps: it reaches the threshold, no row
      scores higher, and every earlier row scores strictly lower. */
  ghost predicate IsBestMatch(s: seq<int>, k: int) {
    IsBestMatchAmong(s, |s|, k)
  }

  /** Row `k` is the one the scan keeps after seeing the first `n` rows. */
  ghost predicate IsBestMatchAmong(s: seq<int>, n: int, k: int)
    requires n <= |s|
  {
    && 0 <= k < n
    && s[k] >= Threshold
    && (forall j | 0 <= j < n :: s[j] <= s[k])
    && (forall j | 0 <= j < k :: s[j] < s[k])
  }

  lemma BestMatchUnique(s: seq<int>, k: int, k': int)
    requires IsBestMatch(s, k) && IsBestMatch(s, k')
    ensures k == k'
  {
  }

  /** What `find_answer` returns: the fallback when no row reaches the
      threshold, and otherwise the answer cell of the kept row (or the
      fallback when that cell is empty). */
  ghost predicate IsFoundAnswer(query: string, rows: seq<BotRow>, bengaliInput: bool,
                                partialRatio: (string, string) -> int, answer: string)
  {
    AnswersScores(RowScores(query, rows, bengaliInput, partialRatio), rows, bengaliInput, answer)
  }

  /** `answer` is what the scan returns for the score column `s`. */
  ghost predicate AnswersScores(s: seq<int>, rows: seq<BotRow>, bengaliInput: bool, answer: string)
    requires |s| == |rows|
  {
    && ((forall j | 0 <= j < |s| :: s[j] < Threshold) ==> answer == Fallback(bengaliInput))
    && ((exists j | 0 <= j < |s| :: s[j] >= Threshold) ==>
          exists k :: IsBestMatch(s, k) && answer == OrFallback(Some(AnswerColumn(bengaliInput, rows[k])), bengaliInput))
  }

  /** What the scan holds once every row is seen is what `find_answer` returns. */
  lemma ScanEnd(s: seq<int>, rows: seq<BotRow>, bengaliInput: bool, bestMatch: Option<string>, best: int)
    requires |s| == |rows|
    requires bestMatch == None <==> forall j | 0 <= j < |s| :: s[j] < Threshold
    requires bestMatch != None ==>
               IsBestMatch(s, best) && bestMatch == Some(AnswerColumn(bengaliInput, rows[best]))
    ensures AnswersScores(s, rows, bengaliInput, OrFallback(bestMatch, bengaliInput))
  {
  }

  /** The answer is determined by the scores and the answer column. */
  lemma FoundAnswerUnique(query: string, rows: seq<BotRow>, bengaliInput: bool,
                          partialRatio: (string, string) -> int, answer: string, answer': string)
    requires IsFoundAnswer(query, rows, bengaliInput, partialRatio, answer)
    requires IsFoundAnswer(query, rows, bengaliInput, partialRatio, answer')
    ensures answer == answer'
  {
    var s := RowScores(query, rows, bengaliInput, partialRatio);
    if exists j | 0 <= j < |s| :: s[j] >= Threshold {
      var k :| IsBestMatch(s, k) && answer == OrFallback(Some(AnswerColumn(bengaliInput, rows[k])), bengaliInput);
      var k' :| IsBestMatch(s, k') && answer' == OrFallback(Some(AnswerColumn(bengaliInput, rows[k'])), bengaliInput);
      BestMatchUnique(s, k, k');
    }
  }

  /** `find_answer`: a linear scan that keeps a row only when its score is
      above the best so far and at least the threshold. */
  method FindAnswer(query: string, rows: seq<BotRow>, isBengaliInput: bool,
                    partialRatio: (string, string) -> int)
    returns (answer: string)
    ensures IsFoundAnswer(query, rows, isBengaliInput, partialRatio, answer)
    ensures answer != ""
  {
    ghost var s := RowScores(query, rows, isBengaliInput, partialRatio);
    var q := Lower(Strip(query));
    var bestMatch: Option<string> := None;
    var bestScore := 0;
    ghost var best := 0;
    var i := 0;
    while i < |rows|
      invariant 0 <= i <= |rows|
      invariant bestScore == 0 || bestScore >= Threshold
      invariant bestMatch == None <==> forall j | 0 <= j < i :: s[j] < Threshold
      invariant bestMatch == None ==> bestScore == 0
      invariant bestMatch != None ==>
                  && IsBestMatchAmong(s, i, best)
                  && bestScore == s[best]
                  && bestMatch == Some(AnswerColumn(isBengaliInput, rows[best]))
    {
      var score := RowScore(q, rows[i], isBengaliInput, partialRatio);
      assert score == s[i];
      if score > bestScore && score >= Threshold {
        bestScore := score;
        bestMatch := Some(AnswerColumn(isBengaliInput, rows[i]));
        best := i;
      }
      i := i + 1;
    }
    ScanEnd(s, rows, isBengaliInput, bestMatch, best);
    answer := OrFallback(bestMatch, isBengaliInput);
  }

  /** Bengali input consults only the Bengali columns: tables that agree on
      `Queries_Bengali` and `Ans_Bengali` give the same scores and the same
      answer. */
  lemma BengaliUsesBengaliColumns(query: string, rows: seq<BotRow>, rows': seq<BotRow>,
                                  partialRatio: (string, string) -> int, answer: string, answer': string)
    requires |rows| == |rows'|
    requires forall j | 0 <= j < |rows| ::
               rows[j].queriesBengali == rows'[j].queriesBengali && rows[j].ansBengali == rows'[j].ansBengali
    requires IsFoundAnswer(query, rows, true, partialRatio, answer)
    requires IsFoundAnswer(query, rows', true, partialRatio, answer')
    ensures RowScores(query, rows, true, partialRatio) == RowScores(query, rows', true, partialRatio)
    ensures answer == answer'
  {
    SameColumnsSameAnswer(query, rows, rows', true, partialRatio, answer, answer');
  }

  /** English input consults only the English columns: tables that agree on
      `Queries` and `Answers` give the same scores and the same answer. */
  lemma EnglishUsesEnglishColumns(query: string, rows: seq<BotRow>, rows': seq<BotRow>,
                                  partialRatio: (string, string) -> int, answer: string, answer': string)
    requires |rows| == |rows'|
    requires forall j | 0 <= j < |rows| ::
               rows[j].queries == rows'[j].queries && rows[j].answers == rows'[j].answers
    requires IsFoundAnswer(query, rows, false, partialRatio, answer)
    requires IsFoundAnswer(query, rows', false, partialRatio, answer')
    ensures RowScores(query, rows, false, partialRatio) == RowScores(query, rows', false, partialRatio)
    ensures answer == answer'
  {
    SameColumnsSameAnswer(query, rows, rows', false, partialRatio, answer, answer');
  }

  lemma SameColumnsSameAnswer(query: string, rows: seq<BotRow>, rows': seq<BotRow>, bengaliInput: bool,
                              partialRatio: (string, string) -> int, answer: string, answer': string)
    requires |rows| == |rows'|
    requires forall j | 0 <= j < |rows| ::
               QueryColumn(bengaliInput, rows[j]) == QueryColumn(bengaliInput, rows'[j])
               && AnswerColumn(bengaliInput, rows[j]) == AnswerColumn(bengaliInput, rows'[j])
    requires IsFoundAnswer(query, rows, bengaliInput, partialRatio, answer)
    requires IsFoundAnswer(query, rows', bengaliInput, partialRatio, answer')
    ensures RowScores(query, rows, bengaliInput, partialRatio) == RowScores(query, rows', bengaliInput, partialRatio)
    ensures answer == answer'
  {
    var s, s' := RowScores(query, rows, bengaliInput, partialRatio), RowScores(query, rows', bengaliInput, partialRatio);
    forall j | 0 <= j < |s|
      ensures s[j] == s'[j]
    {
      assert QueryColumn(bengaliInput, rows[j]) == QueryColumn(bengaliInput, rows'[j]);
    }
    if exists j | 0 <= j < |s| :: s[j] >= Threshold {
      var k :| IsBestMatch(s, k) && answer == OrFallback(Some(AnswerColumn(bengaliInput, rows[k])), bengaliInput);
      var k' :| IsBestMatch(s', k') && answer' == OrFallback(Some(AnswerColumn(bengaliInput, rows'[k'])), bengaliInput);
      BestMatchUnique(s, k, k');
    }
  }
}
