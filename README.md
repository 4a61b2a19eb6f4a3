# Women's cancer awareness chatbot: a Dafny model of its core logic

The chatbot answers health questions in English or Bengali. It has three pieces of logic, and each is modelled here in its own module:

- **`KeywordRetrieval`** models `main.py`, the FastAPI back end. A question is cut into keywords: tokens of the text, lower-cased for English, with stop words and punctuation tokens removed. Each stored question is scored by the Jaccard similarity of the two keyword sets. The score column is written into the module-level DataFrame, and the answer of the first best-scoring row is returned. The `Answers` column is used when the language oracle says `"en"`, and `Ans_Bengali` otherwise.
- **`FuzzyBot`** models `chatbot.py`, the Streamlit bot. Bengali input is detected by script. Then a linear scan keeps the row with the highest fuzzy score at or above 80. A fixed fallback sentence is returned when no row qualifies, or when the chosen answer is empty.
- **`ChatPage`** models `chatbot-frontend/src/app/page.tsx`, the web page. It is a class holding the component's state: `question`, `loading`, `chatHistory` and `isListening`. It has one method per event handler. Sending a question and receiving its reply are separate steps, so several questions can be in flight at once. Pressing Enter sends even while the send button is disabled by `loading`.
- **`Text`** holds the string behaviour the three pieces rely on: Python's `lower()`, the substring meaning of Python's `in`, and white-space trimming. Trimming is defined once over a white-space predicate. Python's `strip()` uses the `str.isspace()` characters (`Text.IsPySpace`), and JavaScript's `trim()` uses the ECMAScript white-space and line-terminator characters (`ChatPage.IsJsSpace`). **`Opt`** holds an `Option` type.

Foreign code is passed in as function parameters: the tokenizer, the stop-word list, the language oracle and the fuzzy score. The HTTP request of the page is modelled only by its outcome, success with an answer or failure.

Three behaviours of the page are modelled as its code has them:
- Enter sends with no in-flight check. `handleKeyPress` (chatbot-frontend/src/app/page.tsx:182-186) calls `askQuestion` directly; only the send button is disabled while loading (page.tsx:382).
- `stopListening` clears `isListening` right after `recognition.stop()` (page.tsx:128-133), without waiting for the recognizer's `end` event.
- A chat message holds only `type` and `message` (page.tsx:6-9).

## Model

| member | source | states |
|---|---|---|
| `Text.Lower` | main.py:23 | `lower()` keeps the length and leaves no capital `A`-`Z`. Each capital becomes its small letter, and every other character is kept (so Bengali text is unchanged). |
| `Text.LowerIdempotent` | chatbot.py:37 | Lower-casing an already lower-cased string changes nothing. |
| `Text.TrimStart` | chatbot.py:30 | The left-stripped string is a suffix of the input, everything cut is white space, and the result does not start with white space. |
| `Text.TrimEnd` | chatbot.py:30 | The right-stripped string is a prefix of the input, everything cut is white space, and the result does not end with white space. |
| `Text.TrimIsSpaceFreeSlice` | chatbot.py:30 | `strip()` returns a contiguous slice of its input, and only white space is cut on either side. The result neither starts nor ends with white space, and it is empty exactly when the input is all white space. |
| `Text.TrimIgnoresPadding` | chatbot.py:30 | White space added before or after a string does not change what `strip()` returns. |
| `KeywordRetrieval.KeepTokens` | main.py:24 | The comprehension's result is an order-preserving subsequence of the tokens. Every kept token passes the filter. Each passing token is kept as many times as it occurs, and no failing token is kept. |
| `KeywordRetrieval.ExtractKeywords` | main.py:22-24 | Keywords are a subsequence of the tokens of the lower-cased text. None is a stop word or a punctuation substring. Every other token is kept, as many times as it occurs. |
| `KeywordRetrieval.ExtractKeywordsBengali` | main.py:26-28 | Bengali keywords are a subsequence of the tokens of the text as given, not lower-cased. Only punctuation-substring tokens are dropped, so stop words stay, and every other token is kept as many times as it occurs. |
| `KeywordRetrieval.SingleCharPunctuation` | main.py:24 | For a one-character token, `word in string.punctuation` holds exactly when the character is one of the punctuation characters. |
| `KeywordRetrieval.PunctuationIsSubstringTest` | main.py:24 | `word not in string.punctuation` is a substring test. `"()"` and `""` are removed. `")("` is kept although each of its characters is punctuation. |
| `KeywordRetrieval.Jaccard` | main.py:30-34 | The similarity lies in [0, 1], and it is 0 when both keyword lists are empty (empty union). |
| `KeywordRetrieval.JaccardSymmetric` | main.py:30-34 | `jaccard_similarity(a, b) == jaccard_similarity(b, a)`. |
| `KeywordRetrieval.JaccardOfSets` | main.py:31 | Only the sets of the inputs matter. Lists with the same elements, in any order and with any repetition, give the same similarity. |
| `KeywordRetrieval.JaccardOne` | main.py:31-34 | The similarity is 1 exactly when the two keyword sets are equal and non-empty. |
| `KeywordRetrieval.JaccardZero` | main.py:32-34 | The similarity is 0 exactly when the keyword sets are disjoint, which includes an empty union. |
| `KeywordRetrieval.QueryScore` | main.py:67 | The score written for each row lies in [0, 1]. |
| `KeywordRetrieval.QueryScoreOne` | main.py:67 | A row scores 1 exactly when the keyword set of its stored question (`Queries` for English, `Queries_Bengali` otherwise) equals the question's, and that set is not empty. |
| `KeywordRetrieval.IdxMax` | main.py:68 | `idxmax` on a non-empty score column returns a position whose score is maximal and that no earlier position equals. |
| `KeywordRetrieval.FirstMaxUnique` | main.py:68 | At most one position is the first maximum, so the row chosen by `idxmax` is determined by the scores. |
| `KeywordRetrieval.StoredQuestionIsFound` | main.py:66-69 | When the question is a stored question word for word and has a keyword, the row `idxmax` picks scores 1, and its stored question has exactly the question's keyword set. |
| `KeywordRetrieval.QaFrame.constructor` | main.py:15-16 | The loaded DataFrame has fixed rows and no score column yet. |
| `KeywordRetrieval.QaFrame.AnswerQuestion` | main.py:61-74 | The `score` column is overwritten with every row's Jaccard score. English input is scored against `Queries` and other input against `Queries_Bengali`. The answer is the `Answers` or `Ans_Bengali` cell of the first row with the maximal score. An empty DataFrame gives no answer (`idxmax` raises). |
| `FuzzyBot.IsBengali` | chatbot.py:9-12 | `is_bengali(s)` holds exactly when some character of `s` lies in U+0980..U+09FF. It is false for the empty string. |
| `FuzzyBot.OrFallback` | chatbot.py:42 | `best_match or fallback` is never empty. It is the kept answer when that is a non-empty string, and the fallback of the input's language when nothing was kept or the kept cell is empty. |
| `FuzzyBot.RowScores` | chatbot.py:37 | The scan scores every row once, in row order. |
| `FuzzyBot.RowScoresIgnorePadding` | chatbot.py:30 | White space around the query does not change any row's score, because the query is stripped first. |
| `FuzzyBot.BestMatchUnique` | chatbot.py:38-40 | At most one row satisfies the kept-row condition, so the scan's answer is determined by the scores. |
| `FuzzyBot.FoundAnswerUnique` | chatbot.py:34-42 | At most one answer fits what `find_answer` promises for a given table and query. |
| `FuzzyBot.FindAnswer` | chatbot.py:29-51 | The stripped, lower-cased query is compared with the lower-cased queries of the input's language. If no row scores 80 or more, the fallback of that language is returned. Otherwise the answer comes from the row with the highest score of at least 80, the earliest on ties. An empty answer cell is replaced by the fallback, so the reply is never empty. |
| `FuzzyBot.BengaliUsesBengaliColumns` | chatbot.py:34-42 | Bengali input reads only `Queries_Bengali` and `Ans_Bengali`. Tables that agree on those columns give the same scores and the same `find_answer` result. |
| `FuzzyBot.EnglishUsesEnglishColumns` | chatbot.py:43-51 | English input reads only `Queries` and `Answers`. Tables that agree on those columns give the same scores and the same `find_answer` result. |
| `ChatPage.BlankIffTrimEmpty` | chatbot-frontend/src/app/page.tsx:147 | `!question.trim()` holds exactly when every character of the draft is JavaScript white space (the ECMAScript white-space and line-terminator characters). |
| `ChatPage.BotReply` | chatbot-frontend/src/app/page.tsx:165-175 | A completed request yields one bot message. Its text is `data.answer` on success and the fixed apology on a non-ok status or any exception. |
| `ChatPage.AppendTranscript` | chatbot-frontend/src/app/page.tsx:73 | The new draft is the transcript alone when the old draft is empty. Otherwise it is the old draft, one space, then the transcript. |
| `ChatPage.CountOfAppend` | chatbot-frontend/src/app/page.tsx:150 | Appending a message raises the count of its sender by one and leaves the other count unchanged. |
| `ChatPage.ChatState.constructor` | chatbot-frontend/src/app/page.tsx:45-54 | The page starts with an empty draft, not loading, an empty history and the microphone off. Recognition exists exactly when the platform supports it. |
| `ChatPage.ChatState.Edit` | chatbot-frontend/src/app/page.tsx:358 | Typing replaces the draft and changes nothing else. |
| `ChatPage.ChatState.Submit` | chatbot-frontend/src/app/page.tsx:146-152 | A draft that is blank after trimming changes nothing and sends nothing. Otherwise the untrimmed draft is appended as a user message and sent, the draft is cleared, and `loading` is set. The in-flight count rises by one. |
| `ChatPage.ChatState.Complete` | chatbot-frontend/src/app/page.tsx:165-178 | Exactly one bot message is appended and the history is otherwise unchanged. `loading` is false afterwards, even if other requests remain in flight. |
| `ChatPage.ChatState.ClickSend` | chatbot-frontend/src/app/page.tsx:379-383 | A click on the disabled button (loading, or a blank draft) changes nothing. Otherwise it sends like `askQuestion`. |
| `ChatPage.ChatState.KeyPress` | chatbot-frontend/src/app/page.tsx:182-187 | Enter without Shift sends even while loading. Any other key sends nothing. |
| `ChatPage.ChatState.OnResult` | chatbot-frontend/src/app/page.tsx:71-75 | The transcript is joined to the current draft, and `isListening` becomes false. |
| `ChatPage.ChatState.OnError` | chatbot-frontend/src/app/page.tsx:78-81 | `isListening` becomes false and nothing else changes. |
| `ChatPage.ChatState.OnEnd` | chatbot-frontend/src/app/page.tsx:83-85 | `isListening` becomes false and nothing else changes. |
| `ChatPage.ChatState.StartListening` | chatbot-frontend/src/app/page.tsx:121-126 | Without recognition, or while already listening, nothing happens. Otherwise recognition starts and `isListening` becomes true. |
| `ChatPage.ChatState.StopListening` | chatbot-frontend/src/app/page.tsx:128-133 | When not listening, nothing happens. Otherwise recognition is stopped and `isListening` is false at once. |
| `ChatPage.OverlappingTurns` | chatbot-frontend/src/app/page.tsx:146-186 | For any two non-blank questions: send the first by click, then the second by Enter while the first is loading (a click at that point is ignored). After the first reply, `loading` is false while the second is unanswered. The history then holds two questions and one reply. |

Every `ChatState` method also keeps the class invariant `Valid()`:
- `loading` implies that some request is in flight.
- The number of user messages equals the number of bot messages plus the requests in flight.
- The microphone is never on without recognition.

Each state-changing method states the whole new history, so `chatHistory` is append-only: it only ever grows by one message at its end.

## Left out

- The tokenizer (`word_tokenize`), NLTK's English stop-word list, the language oracle `detect_language` (main.py:36-41) and `fuzz.partial_ratio` are foreign code. They are parameters, and nothing is assumed about them.
- Text.Lower maps only ASCII `A`-`Z`. Python's full Unicode case mapping of other letters, including mappings that change length, is not modelled. Bengali script has no case.
- `KeywordRetrieval.Jaccard` uses exact rationals instead of Python floats. With scores of small keyword sets, rounding cannot reorder two different ratios, so `idxmax` picks the same row.
- Loading the spreadsheets is not modelled: `read_excel`, `dropna` and `load_data` with its `astype(str)`/`fillna`. The DataFrame rows are given to the model. DataFrame index labels are modelled as positions, because `df.loc` resolves `idxmax`'s label to the same row.
- KeywordRetrieval.QaFrame.AnswerQuestion: requests are taken one at a time. `answer_question` is a plain `def` endpoint, which FastAPI runs in a thread pool. Two requests can interleave between the write of the shared `df["score"]` column (main.py:67, 72) and `idxmax` (main.py:68, 73), so one request can return the answer picked by another request's scores. The model does not capture this.
- The FastAPI app, routing, CORS, `uvicorn`, the Streamlit `main`, and the notebook `cu_bengali.py` are I/O and set-up code around the modelled logic.
- chatbot.py:53-67, the Bengali-to-English translation fallback, is unreachable because both branches above it return.
- The page's HTTP `fetch` is replaced by its outcome, which `ChatState.Complete` receives. A reply without an `answer` field is not modelled. The page would append a bot message whose text is `undefined`; React renders that as an empty bubble (page.tsx:315), and its read-aloud button speaks nothing.
- React state updates are taken as atomic steps, in the order the handlers run. `askQuestion` reading the draft from its render's closure is modelled as reading the current draft.
- The page's rendering is left out: JSX, the theme toggle, the auto-scroll and textarea-resize effects, the language selector and its effect on `recognition.lang`, `speakText` (a speech-synthesis platform call), and the `console.error` logging.
- The in-flight count `inFlight` of `ChatState` is ghost bookkeeping. The page keeps no such counter; it has only pending promises.
