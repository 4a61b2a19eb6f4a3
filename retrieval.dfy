/** The keyword-overlap retrieval of the question-answering API (main.py):
    keyword extraction, Jaccard similarity of keyword sets, and the choice of
    the best-scoring stored question.  The tokenizer, the English stop-word
    list and the language oracle are foreign and are taken as parameters. */
module KeywordRetrieval {
  import opened Text
  import opened Opt

  /** Python's `string.punctuation`. */
  const Punctuation: string := "!\"#$%&'()*+,-./:;<=>?@[\\]^_`{|}~"

  /** `word in string.punctuation`: a substring test, not a membership test
      on characters. */
  predicate IsPunctuationToken(w: string) {
    IsSubstring(w, Punctuation)
  }

  /** For a one-character token the substring test is membership in
      `string.punctuation`. */
  lemma SingleCharPunctuation(c: char)
    ensures IsPunctuationToken([c]) <==> c in Punctuation
  {
    SingleCharSubstring(c, Punctuation);
  }

  predicate IsKeyword(w: string, stopWords: set<string>) {
    w !in stopWords && !IsPunctuationToken(w)
  }

  /** `[word for word in tokens if keep(word)]`: the tokens that pass, in
      their original order, each as often as it occurs in `tokens`. */
  function KeepTokens(tokens: seq<string>, keep: string -> bool): (r: seq<string>)
    ensures IsSubsequence(r, tokens)
    ensures forall i | 0 <= i < |r| :: keep(r[i])
    ensures forall w :: multiset(r)[w] == if keep(w) then multiset(tokens)[w] else 0
    ensures forall w | w in tokens && keep(w) :: w in r
  {
    if tokens == [] then []
    else
      var rest := KeepTokens(tokens[1..], keep);
      assert tokens == [tokens[0]] + tokens[1..];
      if keep(tokens[0]) then [tokens[0]] + rest else rest
  }

  /** `extract_keywords`: tokenize the lower-cased text and drop stop words
      and punctuation tokens. */
  function ExtractKeywords(tokenize: string -> seq<string>, stopWords: set<string>, text: string): (r: seq<string>)
    ensures IsSubsequence(r, tokenize(Lower(text)))
    ensures forall i | 0 <= i < |r| :: r[i] !in stopWords && !IsPunctuationToken(r[i])
    ensures forall w | w in tokenize(Lower(text)) && w !in stopWords && !IsPunctuationToken(w) :: w in r
    ensures forall w :: multiset(r)[w] ==
              if w !in stopWords && !IsPunctuationToken(w) then multiset(tokenize(Lower(text)))[w] else 0
  {
    KeepTokens(tokenize(Lower(text)), w => IsKeyword(w, stopWords))
  }

  /** `extract_keywords_bengali`: no lower-casing and no stop-word removal;
      only punctuation tokens are dropped. */
  function ExtractKeywordsBengali(tokenize: string -> seq<string>, text: string): (r: seq<string>)
    ensures IsSubsequence(r, tokenize(text))
    ensures forall i | 0 <= i < |r| :: !IsPunctuationToken(r[i])
    ensures forall w | w in tokenize(text) && !IsPunctuationToken(w) :: w in r
    ensures forall w :: multiset(r)[w] == if !IsPunctuationToken(w) then multiset(tokenize(text))[w] else 0
  {
    KeepTokens(tokenize(text), w => !IsPunctuationToken(w))
  }

  /** A token made of several punctuation characters is dropped only when it
      occurs as such inside `string.punctuation`: "()" is dropped, ")(" is
      kept although each of its characters is punctuation. */
  lemma PunctuationIsSubstringTest()
    ensures IsPunctuationToken("()")
    ensures !IsPunctuationToken(")(")
    ensures forall i | 0 <= i < |")("| :: ")("[i] in Punctuation
    ensures IsPunctuationToken("")
  {
    assert Punctuation[7] == '(' && Punctuation[8] == ')';
    assert Punctuation[7..9] == "()";
    assert OccursAt("()", Punctuation, 7);
    assert OccursAt("", Punctuation, 0);
    forall i | 0 <= i <= |Punctuation| - 2
      ensures !OccursAt(")(", Punctuation, i)
    {
      assert Punctuation[i..i + 2][0] == Punctuation[i];
      assert Punctuation[i..i + 2][1] == Punctuation[i + 1];
      assert Punctuation[i] == ')' ==> i == 8;
      assert Punctuation[9] == '*';
    }
  }

  function ToSet(s: seq<string>): set<string> {
    set x | x in s
  }

  /** `jaccard_similarity`: |A ∩ B| / |A ∪ B| over the sets of the two lists,
      and 0 when the union is empty.  Python's float division is modelled by
      an exact rational. */
  function Jaccard(a: seq<string>, b: seq<string>): (r: real)
    ensures 0.0 <= r <= 1.0
    ensures a == [] && b == [] ==> r == 0.0
  {
    var A, B := ToSet(a), ToSet(b);
    if |A + B| == 0 then 0.0
    else
      IntersectionNoLarger(A, B);
      RatioAtMostOne(|A * B| as real, |A + B| as real);
      (|A * B| as real) / (|A + B| as real)
  }

  lemma RatioAtMostOne(i: real, u: real)
    requires 0.0 <= i <= u && 0.0 < u
    ensures 0.0 <= i / u <= 1.0
  {
  }

  lemma IntersectionNoLarger(A: set<string>, B: set<string>)
    ensures |A * B| <= |A + B|
  {
    assert |A + B| == |A - B| + |B - A| + |A * B|;
  }

  lemma {:induction false} JaccardSymmetric(a: seq<string>, b: seq<string>)
    ensures Jaccard(a, b) == Jaccard(b, a)
  {
    assert ToSet(a) + ToSet(b) == ToSet(b) + ToSet(a);
    assert ToSet(a) * ToSet(b) == ToSet(b) * ToSet(a);
  }

  /** Only the sets of the inputs matter: reordering or repeating keywords
      does not change the similarity. */
  lemma JaccardOfSets(a: seq<string>, a': seq<string>, b: seq<string>, b': seq<string>)
    requires forall x :: x in a <==> x in a'
    requires forall x :: x in b <==> x in b'
    ensures Jaccard(a, b) == Jaccard(a', b')
  {
    assert ToSet(a) == ToSet(a');
    assert ToSet(b) == ToSet(b');
  }

  /** The similarity is 1 exactly when the two keyword sets are equal and not empty. */
  lemma JaccardOne(a: seq<string>, b: seq<string>)
    ensures Jaccard(a, b) == 1.0 <==> ToSet(a) == ToSet(b) && ToSet(a) != {}
  {
    var A, B := ToSet(a), ToSet(b);
    if Jaccard(a, b) == 1.0 {
      assert |A + B| != 0;
      var i, u := |A * B| as real, |A + B| as real;
      assert i / u == 1.0;
      assert i == (i / u) * u == u;
      SameSizeSubsetIsEqual(A * B, A + B);
      assert A == B by {
        assert forall x | x in A :: x in A + B;
        assert forall x | x in B :: x in A + B;
      }
    }
    if A == B && A != {} {
      assert A * B == A && A + B == A;
      assert |A| != 0;
    }
  }

  lemma SameSizeSubsetIsEqual(S: set<string>, U: set<string>)
    requires S <= U && |S| == |U|
    ensures S == U
  {
    assert U * S == S && U + S == U && S - U == {};
    assert |U + S| == |U - S| + |S - U| + |U * S|;
    assert U - S == {};
  }

  /** The similarity is 0 exactly when the keyword sets share nothing (this
      includes the case of an empty union). */
  lemma JaccardZero(a: seq<string>, b: seq<string>)
    ensures Jaccard(a, b) == 0.0 <==> ToSet(a) * ToSet(b) == {}
  {
  }

  /** One row of the DataFrame `df` loaded from the spreadsheet. */
  datatype QaRow = QaRow(queries: string, answers: string, queriesBengali: string, ansBengali: string)

  /** The keyword extraction used for a detected language. */
  function Keywords(lang: string, tokenize: string -> seq<string>, stopWords: set<string>, text: string): seq<string> {
    if lang == "en" then ExtractKeywords(tokenize, stopWords, text) else ExtractKeywordsBengali(tokenize, text)
  }

  /** The stored-question column compared for a detected language. */
  function QueryColumn(lang: string, row: QaRow): string {
    if lang == "en" then row.queries else row.queriesBengali
  }

  /** The answer column returned for a detected language. */
  function AnswerColumn(lang: string, row: QaRow): string {
    if lang == "en" then row.answers else row.ansBengali
  }

  /** The `score` value written for one row: the similarity of the question's
      keywords with the keywords of the row's stored question (`Queries` for
      English, `Queries_Bengali` otherwise). */
  function QueryScore(lang: string, tokenize: string -> seq<string>, stopWords: set<string>,
                      question: string, row: QaRow): (r: real)
    ensures 0.0 <= r <= 1.0
  {
    Jaccard(Keywords(lang, tokenize, stopWords, question), Keywords(lang, tokenize, stopWords, QueryColumn(lang, row)))
  }

  /** A row scores 1 exactly when its stored question has the same keyword
      set as the input question and that set is not empty. */
  lemma QueryScoreOne(lang: string, tokenize: string -> seq<string>, stopWords: set<string>,
                      question: string, row: QaRow)
    ensures QueryScore(lang, tokenize, stopWords, question, row) == 1.0 <==>
              ToSet(Keywords(lang, tokenize, stopWords, question))
                == ToSet(Keywords(lang, tokenize, stopWords, QueryColumn(lang, row)))
              && Keywords(lang, tokenize, stopWords, question) != []
  {
    var a, b := Keywords(lang, tokenize, stopWords, question), Keywords(lang, tokenize, stopWords, QueryColumn(lang, row));
    JaccardOne(a, b);
    if a != [] {
      assert a[0] in ToSet(a);
    }
  }

  /** `k` is what pandas' `idxmax` picks: a maximal score, and the first one. */
  ghost predicate IsFirstMax(s: seq<real>, k: int) {
    && 0 <= k < |s|
    && (forall j | 0 <= j < |s| :: s[j] <= s[k])
    && (forall j | 0 <= j < k :: s[j] < s[k])
  }

  lemma FirstMaxUnique(s: seq<real>, k: int, k': int)
    requires IsFirstMax(s, k) && IsFirstMax(s, k')
    ensures k == k'
  {
    assert s[k] == s[k'];
  }

  /** `Series.idxmax()` over a non-empty score column. */
  method IdxMax(score: seq<real>) returns (k: nat)
    requires |score| > 0
    ensures IsFirstMax(score, k)
  {
    k := 0;
    var i := 1;
    while i < |score|
      invariant 1 <= i <= |score|
      invariant IsFirstMax(score[..i], k)
    {
      if score[i] > score[k] {
        k := i;
      }
      i := i + 1;
    }
    assert score[..i] == score;
  }

  /** A stored question asked word for word, with at least one keyword, puts
      a score of 1 in the column, so the row `idxmax` picks has exactly the
      question's keyword set. */
  lemma {:induction false} StoredQuestionIsFound(lang: string, tokenize: string -> seq<string>, stopWords: set<string>,
                                                 question: string, rows: seq<QaRow>, score: seq<real>, j: int, k: int)
    requires |score| == |rows|
    requires forall i | 0 <= i < |rows| :: score[i] == QueryScore(lang, tokenize, stopWords, question, rows[i])
    requires 0 <= j < |rows| && QueryColumn(lang, rows[j]) == question
    requires Keywords(lang, tokenize, stopWords, question) != []
    requires IsFirstMax(score, k)
    ensures score[k] == 1.0
    ensures ToSet(Keywords(lang, tokenize, stopWords, QueryColumn(lang, rows[k])))
              == ToSet(Keywords(lang, tokenize, stopWords, question))
  {
    QueryScoreOne(lang, tokenize, stopWords, question, rows[j]);
    QueryScoreOne(lang, tokenize, stopWords, question, rows[k]);
    assert score[j] <= score[k];
  }

  ghost predicate IsMappedPrefix<T, U>(ys: seq<U>, xs: seq<T>, f: T -> U) {
    |ys| <= |xs| && forall j | 0 <= j < |ys| :: ys[j] == f(xs[j])
  }

  lemma MappedPrefixGrows<T, U>(ys: seq<U>, xs: seq<T>, f: T -> U, y: U)
    requires IsMappedPrefix(ys, xs, f) && |ys| < |xs| && y == f(xs[|ys|])
    ensures IsMappedPrefix(ys + [y], xs, f)
  {
  }

  /** The module-level DataFrame of the API: its rows never change after
      loading, and every request overwrites the `score` column. */
  class QaFrame {
    const rows: seq<QaRow>
    var score: seq<real>

    constructor (rows: seq<QaRow>)
      ensures this.rows == rows && score == []
    {
      this.rows := rows;
      score := [];
    }

    /** `answer_question`: score every stored question against the input's
        keywords, then return the answer column of the first best row.  An
        empty DataFrame makes `idxmax` raise, modelled as `None`. */
    method AnswerQuestion(question: string, detectLanguage: string -> string,
                          tokenize: string -> seq<string>, stopWords: set<string>)
      returns (answer: Option<string>)
      modifies this`score
      ensures |score| == |rows|
      ensures forall i | 0 <= i < |rows| ::
                score[i] == QueryScore(detectLanguage(question), tokenize, stopWords, question, rows[i])
      ensures answer.None? <==> rows == []
      ensures answer.Some? ==>
                exists k :: IsFirstMax(score, k) && answer.value == AnswerColumn(detectLanguage(question), rows[k])
    {
      var lang := detectLanguage(question);
      var column: seq<real> := [];
      var i := 0;
      ghost var scoreOf := row => QueryScore(lang, tokenize, stopWords, question, row);
      while i < |rows|
        invariant 0 <= i <= |rows| && |column| == i
        invariant IsMappedPrefix(column, rows, scoreOf)
      {
        var sc := QueryScore(lang, tokenize, stopWords, question, rows[i]);
        MappedPrefixGrows(column, rows, scoreOf, sc);
        column := column + [sc];
        i := i + 1;
      }
      assert IsMappedPrefix(column, rows, scoreOf);
      score := column;
      if |rows| == 0 {
        answer := None;
      } else {
        var best := IdxMax(score);
        answer := Some(AnswerColumn(lang, rows[best]));
      }
    }
  }
}
