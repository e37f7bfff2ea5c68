/** The chat page's state (public/script.js): the history sent to the model,
    the pending user message and attachment, the `bot-responding` flag that
    locks the prompt, the word-by-word typing effect, and the two small
    selection rules for the model label and the logged-in layout. */
module Chat {
  import opened Wrappers
  import opened Strings

  // ---------------------------------------------------------------------------
  // History entries
  // ---------------------------------------------------------------------------

  /** A part of a message: text, or an attached file's properties (`inline_data`). */
  datatype Part = Text(text: string) | InlineData(data: map<string, string>)

  /** One entry of `chatHistory`: a role ("user" or "model") and its parts. */
  datatype Content = Content(role: string, parts: seq<Part>)

  /** `userData.file.data` is truthy. */
  predicate HasData(file: map<string, string>)
  {
    "data" in file && file["data"] != ""
  }

  /** The entry pushed before the request: the message text, then the file's
      properties without `fileName` and `isImage`, only when it holds data. */
  function UserEntry(message: string, file: map<string, string>): (c: Content)
    ensures c.role == "user" && 1 <= |c.parts| <= 2 && c.parts[0] == Text(message)
    ensures |c.parts| == 2 <==> HasData(file)
    ensures |c.parts| == 2 ==>
      && c.parts[1].InlineData?
      && (forall k :: k in c.parts[1].data <==> k in file && k != "fileName" && k != "isImage")
      && (forall k :: k in c.parts[1].data ==> c.parts[1].data[k] == file[k])
  {
    Content("user", [Text(message)] + if HasData(file) then [InlineData(file - {"fileName", "isImage"})] else [])
  }

  /** How the request ended once it was sent: the formatted reply text, or the
      message of the error thrown (an HTTP error, a malformed reply, an abort). */
  datatype Outcome = Replied(text: string) | Failed(error: string)

  const ApiKeyMissing := "API Key not loaded. Please refresh the page."

  /** What one `generateResponse` appends to the history: the user entry, and a
      model entry only when the key was loaded and the request succeeded. */
  function Exchange(message: string, file: map<string, string>, apiKey: Option<string>, outcome: Outcome): (entries: seq<Content>)
    ensures 1 <= |entries| <= 2 && entries[0] == UserEntry(message, file)
    ensures |entries| == 2 <==> Truthy(apiKey) && outcome.Replied?
    ensures |entries| == 2 ==> entries[1] == Content("model", [Text(outcome.text)])
  {
    [UserEntry(message, file)] + if Truthy(apiKey) && outcome.Replied? then [Content("model", [Text(outcome.text)])] else []
  }

  /** The text the bot message shows afterwards: the reply, or the error message. */
  function BotText(apiKey: Option<string>, outcome: Outcome): (t: string)
    ensures !Truthy(apiKey) ==> t == ApiKeyMissing
    ensures Truthy(apiKey) ==> t == match outcome case Replied(r) => r case Failed(e) => e
  {
    if !Truthy(apiKey) then ApiKeyMissing
    else match outcome
      case Replied(r) => r
      case Failed(e) => e
  }

  /** Entry `k` is a user or a model entry, and a model entry answers the
      user entry just before it. */
  predicate Answers(h: seq<Content>, k: nat)
    requires k < |h|
  {
    && (h[k].role == "user" || h[k].role == "model")
    && (h[k].role == "model" ==> 0 < k && h[k - 1].role == "user")
  }

  /** Every entry of the history is in its place. */
  ghost predicate WellFormed(h: seq<Content>)
  {
    forall k: nat :: k < |h| ==> Answers(h, k)
  }

  /** The number of user entries. */
  function UserTurns(h: seq<Content>): (n: nat)
    ensures n <= |h|
    decreases |h|
  {
    if h == [] then 0 else UserTurns(h[..|h| - 1]) + if h[|h| - 1].role == "user" then 1 else 0
  }

  /** Appending one entry adds one user turn exactly when it is a user entry. */
  lemma UserTurnsSnoc(h: seq<Content>, x: Content)
    ensures UserTurns(h + [x]) == UserTurns(h) + if x.role == "user" then 1 else 0
  {
    assert (h + [x])[..|h|] == h;
  }

  /** A user entry may always be appended; a model entry right after a user entry. */
  lemma WellFormedSnoc(h: seq<Content>, x: Content)
    requires WellFormed(h)
    requires x.role == "user" || (x.role == "model" && h != [] && h[|h| - 1].role == "user")
    ensures WellFormed(h + [x])
  {
    var h' := h + [x];
    forall k: nat | k < |h'|
      ensures Answers(h', k)
    {
      if k < |h| {
        assert Answers(h, k);
        assert h'[k] == h[k];
        if 0 < k {
          assert h'[k - 1] == h[k - 1];
        }
      } else {
        assert h'[k] == x;
        if x.role == "model" {
          assert h'[k - 1] == h[|h| - 1];
        }
      }
    }
  }

  /** One exchange keeps the history well formed and adds exactly one user turn. */
  lemma ExchangeKeepsHistory(h: seq<Content>, message: string, file: map<string, string>,
                             apiKey: Option<string>, outcome: Outcome)
    requires WellFormed(h)
    ensures WellFormed(h + Exchange(message, file, apiKey, outcome))
    ensures UserTurns(h + Exchange(message, file, apiKey, outcome)) == UserTurns(h) + 1
  {
    var e := Exchange(message, file, apiKey, outcome);
    var u := e[0];
    WellFormedSnoc(h, u);
    UserTurnsSnoc(h, u);
    if |e| == 2 {
      var m := e[1];
      assert e == [u] + [m];
      AppendAssoc(h, [u], [m]);
      WellFormedSnoc(h + [u], m);
      UserTurnsSnoc(h + [u], m);
    } else {
      assert e == [u];
    }
  }

  // ---------------------------------------------------------------------------
  // The page
  // ---------------------------------------------------------------------------

  /** The page's state: `chatHistory`, `userData`, the prompt input's value,
      `API_KEY`, the `bot-responding` and `chats-active` classes of the body,
      and the text of the latest bot message. */
  class ChatSession {
    var chatHistory: seq<Content>
    var message: string
    var file: map<string, string>
    var input: string
    var apiKey: Option<string>
    var botResponding: bool
    var chatsActive: bool
    var botText: string

    ghost predicate Valid()
      reads this
    {
      WellFormed(chatHistory)
    }

    constructor ()
      ensures Valid()
      ensures chatHistory == [] && message == "" && file == map[] && input == "" && apiKey == Some("")
      ensures !botResponding && !chatsActive && botText == ""
    {
      chatHistory := [];
      message := "";
      file := map[];
      input := "";
      apiKey := Some("");
      botResponding := false;
      chatsActive := false;
      botText := "";
    }

    /** The `/api/config` fetch resolving: `API_KEY = data.googleApiKey`. */
    method LoadConfig(googleApiKey: Option<string>)
      modifies this
      ensures apiKey == googleApiKey
      ensures chatHistory == old(chatHistory) && message == old(message) && file == old(file) && input == old(input)
      ensures botResponding == old(botResponding) && chatsActive == old(chatsActive) && botText == old(botText)
    {
      apiKey := googleApiKey;
    }

    /** `handleFormSubmit`: an empty trimmed message, or a submit while the bot
        is responding, does nothing; otherwise the trimmed message is stored,
        the input cleared and the prompt locked. The response itself follows
        600 ms later, as `GenerateResponse`. */
    method Submit()
      modifies this
      ensures var m := Trim(old(input));
        if m == "" || old(botResponding) then
          && message == old(message) && input == old(input)
          && botResponding == old(botResponding) && chatsActive == old(chatsActive)
        else
          && message == m && input == "" && botResponding && chatsActive
      ensures chatHistory == old(chatHistory) && file == old(file) && apiKey == old(apiKey) && botText == old(botText)
    {
      var userMessage := Trim(input);
      if userMessage == "" || botResponding {
        return;
      }
      message := userMessage;
      input := "";
      chatsActive := true;
      botResponding := true;
    }

    /** `generateResponse`, from the first push to the `finally` block. */
    method GenerateResponse(outcome: Outcome)
      requires Valid()
      modifies this
      ensures Valid()
      ensures chatHistory == old(chatHistory) + Exchange(old(message), old(file), old(apiKey), outcome)
      ensures UserTurns(chatHistory) == UserTurns(old(chatHistory)) + 1
      ensures botText == BotText(old(apiKey), outcome)
      ensures !botResponding && file == map[]
      ensures message == old(message) && input == old(input) && apiKey == old(apiKey) && chatsActive == old(chatsActive)
    {
      ghost var h0 := chatHistory;
      ghost var entries := Exchange(message, file, apiKey, outcome);
      ExchangeKeepsHistory(chatHistory, message, file, apiKey, outcome);
      chatHistory := chatHistory + [UserEntry(message, file)];
      if !Truthy(apiKey) {
        botText := ApiKeyMissing;
        assert entries == [UserEntry(message, file)];
      } else {
        match outcome
        case Replied(text) =>
          botText := text;
          assert entries == [UserEntry(message, file)] + [Content("model", [Text(text)])];
          AppendAssoc(h0, [UserEntry(message, file)], [Content("model", [Text(text)])]);
          chatHistory := chatHistory + [Content("model", [Text(text)])];
        case Failed(error) =>
          botText := error;
          assert entries == [UserEntry(message, file)];
      }
      botResponding := false;
      file := map[];
    }

    /** The stop button: aborts the request (its failure reaches
        `GenerateResponse` as an outcome) and unlocks the prompt. */
    method Stop()
      modifies this
      ensures !botResponding
      ensures chatHistory == old(chatHistory) && message == old(message) && file == old(file)
      ensures input == old(input) && apiKey == old(apiKey) && chatsActive == old(chatsActive) && botText == old(botText)
    {
      botResponding := false;
    }
  }

  // ---------------------------------------------------------------------------
  // typingEffect
  // ---------------------------------------------------------------------------

  /** The text shown once the first `k` words were emitted. */
  function Typed(words: seq<string>, k: nat): (shown: string)
    requires k <= |words|
  {
    Join(words[..k], " ")
  }

  /** What is shown is always a prefix of the text, and all the words give the
      text back. */
  lemma TypedIsPrefix(text: string, k: nat)
    requires k <= |Split(text, ' ')|
    ensures Typed(Split(text, ' '), k) <= text
    ensures k == |Split(text, ' ')| ==> Typed(Split(text, ' '), k) == text
  {
    var words := Split(text, ' ');
    JoinPrefix(words, k, " ");
    JoinSplit(text, ' ');
    assert words[..|words|] == words;
  }

  /** One run of `typingEffect`: the words of `text`, the next word's index,
      the element's text, and whether the interval was cleared. */
  class TypingEffect {
    const text: string
    const words: seq<string>
    var wordIndex: nat
    var shown: string
    var finished: bool

    ghost predicate Valid()
      reads this
    {
      && words == Split(text, ' ')
      && wordIndex <= |words|
      && shown == Typed(words, wordIndex)
      && (finished ==> wordIndex == |words|)
    }

    constructor (text: string)
      ensures Valid() && this.text == text && wordIndex == 0 && shown == "" && !finished
    {
      this.text := text;
      words := Split(text, ' ');
      wordIndex := 0;
      shown := "";
      finished := false;
    }

    /** One 40 ms tick: append the next word (after a space unless it is the
        first), or, with every word out, clear the interval and unlock the
        session's prompt (`bot-responding` is removed from the body). */
    method Tick(session: ChatSession)
      requires Valid() && !finished
      modifies this, session
      ensures Valid()
      ensures old(wordIndex) == |words| ==> !session.botResponding
      ensures old(wordIndex) < |words| ==> session.botResponding == old(session.botResponding)
      ensures && session.chatHistory == old(session.chatHistory) && session.message == old(session.message)
              && session.file == old(session.file) && session.input == old(session.input)
              && session.apiKey == old(session.apiKey) && session.chatsActive == old(session.chatsActive)
              && session.botText == old(session.botText)
      ensures shown <= text
      ensures old(wordIndex) <= wordIndex <= old(wordIndex) + 1
      ensures old(wordIndex) < |words| ==> wordIndex == old(wordIndex) + 1 && !finished
      ensures old(wordIndex) == |words| ==> wordIndex == old(wordIndex) && finished
      ensures finished ==> shown == text
    {
      if wordIndex < |words| {
        JoinSnoc(words, wordIndex, " ");
        shown := shown + (if wordIndex == 0 then "" else " ") + words[wordIndex];
        wordIndex := wordIndex + 1;
      } else {
        finished := true;
        session.botResponding := false;
      }
      TypedIsPrefix(text, wordIndex);
    }
  }

  // ---------------------------------------------------------------------------
  // Selection rules
  // ---------------------------------------------------------------------------

  const DefaultModel := "gemini-1.5-flash"

  /** `localStorage.getItem("selectedModel") || "gemini-1.5-flash"`. */
  function InitialModel(stored: Option<string>): (m: string)
    ensures Truthy(stored) ==> m == stored.value
    ensures !Truthy(stored) ==> m == DefaultModel
    ensures m != ""
  {
    if Truthy(stored) then stored.value else DefaultModel
  }

  /** The dropdown button's label: "Gemini 1.5 Flash" for the default model,
      "Gemini 2.0 Flash" for anything else. */
  function ModelLabel(model: string): (text: string)
    ensures text == "Gemini 1.5 Flash" <==> model == DefaultModel
    ensures text != "Gemini 1.5 Flash" ==> text == "Gemini 2.0 Flash"
  {
    if model == DefaultModel then "Gemini 1.5 Flash" else "Gemini 2.0 Flash"
  }

  /** Which controls `checkUserAuth` displays. */
  datatype Layout = Layout(loginButton: bool, registerButton: bool, logoutButton: bool, chat: bool)

  /** Logged in (a truthy stored token): logout and the chat shown, login and
      register hidden; logged out: the opposite. */
  function Visibility(token: Option<string>): (l: Layout)
    ensures l.logoutButton == l.chat == Truthy(token)
    ensures l.loginButton == l.registerButton == !Truthy(token)
  {
    if Truthy(token) then Layout(false, false, true, true) else Layout(true, true, false, false)
  }
}
