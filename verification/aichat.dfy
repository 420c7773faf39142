/** The chat edge function (`ai-chat`): validation of the request's
    `message` field and the assembly of the message list sent to the
    language model. Authentication and the model call itself are left to
    the caller; the model's reply is a parameter. */
module AiChat {
  import opened Wrappers

  datatype Role = SystemRole | UserRole | AssistantRole

  datatype ChatTurn = ChatTurn(role: Role, content: string)

  /** The `message` field of the request body as JSON delivers it. */
  datatype MessageField = MessageMissing | MessageNotString | MessageText(text: string)

  /** How many history turns are passed on. */
  const HistoryWindow: nat := 10

  /** The message is usable exactly when it is a non-empty string. */
  predicate MessageValid(m: MessageField) {
    m.MessageText? && m.text != []
  }

  /** The last `min(10, |history|)` turns (JavaScript `history.slice(-10)`). */
  function RecentHistory(history: seq<ChatTurn>): (r: seq<ChatTurn>)
    ensures |r| == if |history| < HistoryWindow then |history| else HistoryWindow
    ensures forall i :: 0 <= i < |r| ==> r[i] == history[|history| - |r| + i]
  {
    if |history| <= HistoryWindow then history else history[|history| - HistoryWindow..]
  }

  /** The list sent to the model: the coach prompt as the system turn, the
      recent history in its original order, and the user's message last. */
  function AssembleMessages(systemPrompt: string, history: seq<ChatTurn>, message: string): (r: seq<ChatTurn>)
    ensures 2 <= |r| <= HistoryWindow + 2
    ensures r[0] == ChatTurn(SystemRole, systemPrompt)
    ensures r[|r| - 1] == ChatTurn(UserRole, message)
    ensures r[1..|r| - 1] == RecentHistory(history)
  {
    [ChatTurn(SystemRole, systemPrompt)] + RecentHistory(history) + [ChatTurn(UserRole, message)]
  }

  /** A missing history (`history = []` by default) gives exactly the
      system turn and the user turn. */
  lemma NoHistoryGivesTwoTurns(systemPrompt: string, message: string)
    ensures AssembleMessages(systemPrompt, [], message)
            == [ChatTurn(SystemRole, systemPrompt), ChatTurn(UserRole, message)]
  {
    assert RecentHistory([]) == [];
  }

  /** Turns older than the last ten have no influence on what is sent. */
  lemma OlderTurnsIgnored(systemPrompt: string, older: seq<ChatTurn>, history: seq<ChatTurn>, message: string)
    requires |history| >= HistoryWindow
    ensures AssembleMessages(systemPrompt, older + history, message)
            == AssembleMessages(systemPrompt, history, message)
  {
    var both := older + history;
    assert both[|both| - HistoryWindow..] == history[|history| - HistoryWindow..];
  }

  /** Every history turn within the window is passed on unchanged. */
  lemma RecentTurnsKept(systemPrompt: string, history: seq<ChatTurn>, message: string, i: nat)
    requires i < |history| && |history| - i <= HistoryWindow
    ensures AssembleMessages(systemPrompt, history, message)[i + 1 - (|history| - |RecentHistory(history)|)]
            == history[i]
  {
    var recent := RecentHistory(history);
    var r := [ChatTurn(SystemRole, systemPrompt)] + recent + [ChatTurn(UserRole, message)];
    assert r == AssembleMessages(systemPrompt, history, message);
    var k := i - (|history| - |recent|);
    assert r[k + 1] == recent[k];
  }

  /** The reply to the client: the model's answer, or an error message
      (sent with status 400). */
  datatype ChatReply = Answer(message: string) | ChatError(error: string)

  const MessageRequired := "Message is required"
  const NoAiResponse := "No response from AI"
  const ModelErrorPrefix := "OpenAI API error: "

  /** The handler after authentication, given the request's `message`
      field, its `history` (`None` when absent) and the reply the model
      would give to the assembled list: a failure with the service's error
      text, or the first choice's content if there is one. An invalid
      message is refused whatever that reply is, so the model is never
      asked; an empty answer is an error. */
  function HandleChat(systemPrompt: string, message: MessageField, history: Option<seq<ChatTurn>>,
                      model: seq<ChatTurn> -> Result<Option<string>, string>): (r: ChatReply)
    ensures !MessageValid(message) ==> r == ChatError(MessageRequired)
    ensures r.Answer? <==>
              MessageValid(message)
              && var reply := model(AssembleMessages(systemPrompt, history.GetOr([]), message.text));
                 reply.Success? && reply.value.Some? && reply.value.value != []
    ensures r.Answer? ==>
              model(AssembleMessages(systemPrompt, history.GetOr([]), message.text))
              == Success(Some(r.message))
  {
    if !MessageValid(message) then ChatError(MessageRequired)
    else
      match model(AssembleMessages(systemPrompt, history.GetOr([]), message.text))
      case Failure(e) => ChatError(ModelErrorPrefix + e)
      case Success(None) => ChatError(NoAiResponse)
      case Success(Some(answer)) =>
        if answer == [] then ChatError(NoAiResponse) else Answer(answer)
  }
}
