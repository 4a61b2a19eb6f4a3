/** The conversation state of the chat page component (page.tsx): the text
    box, the loading indicator, the chat history and the microphone state,
    with the event handlers that change them.  The HTTP request is not
    modelled; its completion is a separate step with a success or failure
    outcome, so several questions may be in flight at once. */
module ChatPage {
  import opened Opt
  import opened Text

  datatype Sender = User | Bot

  /** `ChatMessage`: who sent it and its text. */
  datatype ChatMessage = ChatMessage(kind: Sender, message: string)

  /** How a request to `/ask` ended: a JSON reply with `answer` from an ok
      response, or any failure (a non-ok status, a rejected `fetch`, a body
      that is not JSON). */
  datatype FetchOutcome = Answered(answer: string) | Failed

  const Apology: string := "I'm sorry, I'm having trouble connecting right now. Please try again in a moment."

  /** The characters JavaScript's `String.prototype.trim` removes: the
      ECMAScript WhiteSpace and LineTerminator code points. */
  predicate IsJsSpace(c: char) {
    || c == '\t' || c == '\n' || c == '\U{000B}' || c == '\U{000C}' || c == '\r' || c == ' '
    || c == '\U{00A0}' || c == '\U{1680}' || '\U{2000}' <= c <= '\U{200A}'
    || c == '\U{2028}' || c == '\U{2029}' || c == '\U{202F}' || c == '\U{205F}'
    || c == '\U{3000}' || c == '\U{FEFF}'
  }

  /** Every character is JavaScript white space. */
  predicate IsBlank(s: string) {
    AllSpace(s, IsJsSpace)
  }

  /** `!s.trim()` holds exactly for the blank strings. */
  lemma BlankIffTrimEmpty(s: string)
    ensures IsBlank(s) <==> Trim(s, IsJsSpace) == ""
  {
    TrimIsSpaceFreeSlice(s, IsJsSpace);
  }

  /** The bot message appended when a request completes. */
  function BotReply(outcome: FetchOutcome): (m: ChatMessage)
    ensures m.kind == Bot
    ensures outcome.Answered? ==> m.message == outcome.answer
    ensures outcome.Failed? ==> m.message == Apology
  {
    match outcome
    case Answered(a) => ChatMessage(Bot, a)
    case Failed => ChatMessage(Bot, Apology)
  }

  /** `prev + (prev ? ' ' : '') + transcript`: a spoken transcript is added to
      the draft, separated by one space unless the draft is empty. */
  function AppendTranscript(prev: string, transcript: string): (r: string)
    ensures |r| == |prev| + (if prev == [] then 0 else 1) + |transcript|
    ensures prev == [] ==> r == transcript
    ensures prev != [] ==> r[..|prev|] == prev && r[|prev|] == ' ' && r[|prev| + 1..] == transcript
  {
    prev + (if prev == [] then "" else " ") + transcript
  }

  /** Who sent each message of the history, in order. */
  function Senders(history: seq<ChatMessage>): seq<Sender> {
    seq(|history|, i requires 0 <= i < |history| => history[i].kind)
  }

  /** How many messages of the history were sent by `kind`. */
  function CountOf(history: seq<ChatMessage>, kind: Sender): nat {
    multiset(Senders(history))[kind]
  }

  lemma CountOfAppend(history: seq<ChatMessage>, m: ChatMessage, kind: Sender)
    ensures CountOf(history + [m], kind) == CountOf(history, kind) + (if m.kind == kind then 1 else 0)
  {
    assert Senders(history + [m]) == Senders(history) + [m.kind];
  }

  /** The state of the `Home` component. */
  class ChatState {
    var question: string
    var loading: bool
    var chatHistory: seq<ChatMessage>
    var isListening: bool
    /** Whether a speech-recognition instance exists (`recognition !== null`). */
    const recognitionAvailable: bool
    /** The `askQuestion` calls whose request has not completed yet. */
    ghost var inFlight: nat

    /** `loading` is only ever set by a submission that has not completed;
        every user message is answered by exactly one bot message except the
        ones still in flight; the microphone is never on without recognition. */
    ghost predicate Valid()
      reads this
    {
      && (loading ==> inFlight > 0)
      && CountOf(chatHistory, User) == CountOf(chatHistory, Bot) + inFlight
      && (!recognitionAvailable ==> !isListening)
    }

    /** The state after mounting; `speechSupported` is what the mount effect found. */
    constructor (speechSupported: bool)
      ensures Valid()
      ensures question == "" && !loading && chatHistory == [] && !isListening
      ensures recognitionAvailable == speechSupported && inFlight == 0
    {
      question := "";
      loading := false;
      chatHistory := [];
      isListening := false;
      recognitionAvailable := speechSupported;
      inFlight := 0;
    }

    /** The text area's `onChange`. */
    method Edit(text: string)
      requires Valid()
      modifies this`question
      ensures Valid() && question == text
    {
      question := text;
    }

    /** The synchronous part of `askQuestion`, up to the `fetch`: a blank
        question changes nothing; otherwise the untrimmed question is appended
        as a user message, the text box is cleared and `loading` is set.
        `sent` is the question posted to `/ask`.  Nothing here looks at
        `loading`: a second question can be sent while one is in flight. */
    method Submit() returns (sent: Option<string>)
      requires Valid()
      modifies this`question, this`loading, this`chatHistory, this`inFlight
      ensures Valid()
      ensures IsBlank(old(question)) ==>
                && sent == None
                && question == old(question) && loading == old(loading)
                && chatHistory == old(chatHistory) && inFlight == old(inFlight)
      ensures !IsBlank(old(question)) ==>
                && sent == Some(old(question))
                && chatHistory == old(chatHistory) + [ChatMessage(User, old(question))]
                && question == "" && loading && inFlight == old(inFlight) + 1
    {
      if IsBlank(question) {
        return None;
      }
      sent := Some(question);
      CountOfAppend(chatHistory, ChatMessage(User, question), User);
      CountOfAppend(chatHistory, ChatMessage(User, question), Bot);
      chatHistory := chatHistory + [ChatMessage(User, question)];
      question := "";
      loading := true;
      inFlight := inFlight + 1;
    }

    /** The rest of `askQuestion`, once one request has settled: exactly one
        bot message is appended and `loading` is cleared, even when other
        requests are still in flight. */
    method Complete(outcome: FetchOutcome)
      requires Valid() && inFlight > 0
      modifies this`loading, this`chatHistory, this`inFlight
      ensures Valid()
      ensures chatHistory == old(chatHistory) + [BotReply(outcome)]
      ensures !loading && inFlight == old(inFlight) - 1
    {
      CountOfAppend(chatHistory, BotReply(outcome), User);
      CountOfAppend(chatHistory, BotReply(outcome), Bot);
      chatHistory := chatHistory + [BotReply(outcome)];
      loading := false;
      inFlight := inFlight - 1;
    }

    /** The send button: the browser ignores a click while it is disabled
        (`loading || !question.trim()`). */
    method ClickSend() returns (sent: Option<string>)
      requires Valid()
      modifies this`question, this`loading, this`chatHistory, this`inFlight
      ensures Valid()
      ensures old(loading) ==> sent == None && unchanged(this)
      ensures !old(loading) && !IsBlank(old(question)) ==>
                && sent == Some(old(question))
                && chatHistory == old(chatHistory) + [ChatMessage(User, old(question))]
                && question == "" && loading && inFlight == old(inFlight) + 1
      ensures IsBlank(old(question)) ==> sent == None && unchanged(this)
    {
      if loading || IsBlank(question) {
        return None;
      }
      sent := Submit();
    }

    /** `handleKeyPress`: Enter without Shift calls `askQuestion` directly,
        whether or not the send button is disabled. */
    method KeyPress(isEnter: bool, shift: bool) returns (sent: Option<string>)
      requires Valid()
      modifies this`question, this`loading, this`chatHistory, this`inFlight
      ensures Valid()
      ensures !(isEnter && !shift) ==> sent == None && unchanged(this)
      ensures isEnter && !shift && !IsBlank(old(question)) ==>
                && sent == Some(old(question))
                && chatHistory == old(chatHistory) + [ChatMessage(User, old(question))]
                && question == "" && loading && inFlight == old(inFlight) + 1
      ensures IsBlank(old(question)) ==> sent == None && unchanged(this)
    {
      sent := None;
      if isEnter && !shift {
        sent := Submit();
      }
    }

    /** `onresult`: the transcript is added to the current draft and the
        microphone is off. */
    method OnResult(transcript: string)
      requires Valid()
      modifies this`question, this`isListening
      ensures Valid()
      ensures question == AppendTranscript(old(question), transcript) && !isListening
    {
      question := AppendTranscript(question, transcript);
      isListening := false;
    }

    /** `onerror`: the error is only logged; the microphone is off. */
    method OnError()
      requires Valid()
      modifies this`isListening
      ensures Valid() && !isListening
    {
      isListening := false;
    }

    /** `onend`: the microphone is off. */
    method OnEnd()
      requires Valid()
      modifies this`isListening
      ensures Valid() && !isListening
    {
      isListening := false;
    }

    /** `startListening`: does nothing without recognition or while already
        listening; otherwise turns the microphone on and starts recognition
        (`started`). */
    method StartListening() returns (started: bool)
      requires Valid()
      modifies this`isListening
      ensures Valid()
      ensures started <==> recognitionAvailable && !old(isListening)
      ensures isListening == (old(isListening) || started)
    {
      started := recognitionAvailable && !isListening;
      if started {
        isListening := true;
      }
    }

    /** `stopListening`: does nothing unless listening; otherwise stops
        recognition (`stopped`) and turns the microphone off at once, without
        waiting for `onend`. */
    method StopListening() returns (stopped: bool)
      requires Valid()
      modifies this`isListening
      ensures Valid()
      ensures stopped <==> old(isListening)
      ensures !isListening
    {
      stopped := recognitionAvailable && isListening;
      if stopped {
        isListening := false;
      }
    }
  }

  /** Two questions, the second sent with Enter while the first is loading:
      the first completion clears the loading indicator although the second
      request is still open, and the history then holds two questions and
      one reply. */
  method OverlappingTurns(first: string, second: string) returns (loadingAfterFirstReply: bool, history: seq<ChatMessage>)
    requires !IsBlank(first) && !IsBlank(second)
    ensures !loadingAfterFirstReply
    ensures history == [ChatMessage(User, first), ChatMessage(User, second), ChatMessage(Bot, Apology)]
  {
    var page := new ChatState(true);
    page.Edit(first);
    var sentFirst := page.ClickSend();
    assert page.loading && page.inFlight == 1 && page.chatHistory == [ChatMessage(User, first)];
    page.Edit(second);
    var blocked := page.ClickSend();
    assert blocked == None;
    assert page.loading && page.inFlight == 1 && page.chatHistory == [ChatMessage(User, first)];
    var sentSecond := page.KeyPress(true, false);
    assert sentSecond == Some(second);
    assert page.inFlight == 2 && page.chatHistory == [ChatMessage(User, first), ChatMessage(User, second)];
    page.Complete(Failed);
    loadingAfterFirstReply := page.loading;
    history := page.chatHistory;
  }
}
