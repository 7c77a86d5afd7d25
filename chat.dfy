/** Chat completion (`promptChatGPT`, `promptChatGPTVision`): how the request's
    message list and optional response format are composed, and how the
    generated client's response is turned into the returned text. */
module Chat {
  import opened Common

  /** One entry of a chat request's message list. The client itself builds
      only assistant messages and plain-text user messages; the caller's
      history may also hold any other message of the schema (tool or
      function messages, user messages made of content parts), which the
      client passes on untouched and which `OtherMessage` stands for. */
  datatype Message =
    | AssistantMessage(content: string)
    | UserMessage(content: string)
    | SystemMessage(content: string)
    | OtherMessage(role: string, payload: string)

  /** The chat models this client names; `promptChatGPT` defaults to Gpt4o and
      `promptChatGPT4oMini` fixes Gpt4oMini. */
  datatype ChatModel = Gpt4o | Gpt4oMini | OtherModel(name: string)

  /** The request's `response_format` object. Its type is the schema's enum
      case for the caller's tag, or absent when the tag names no case. */
  datatype ResponseFormat = ResponseFormat(formatType: Option<string>)

  datatype ChatRequest = ChatRequest(
    messages: seq<Message>,
    model: ChatModel,
    responseFormat: Option<ResponseFormat>)

  /** The message list: the assistant message carrying the assistant prompt,
      then the caller's history verbatim, then the new user message. */
  function ComposeMessages(assistantPrompt: string, prevMessages: seq<Message>, prompt: string)
    : (r: seq<Message>)
    ensures |r| == |prevMessages| + 2
    ensures r[0] == AssistantMessage(assistantPrompt)
    ensures r[1..|r| - 1] == prevMessages
    ensures forall i :: 0 <= i < |prevMessages| ==> r[i + 1] == prevMessages[i]
    ensures r[|r| - 1] == UserMessage(prompt)
  {
    [AssistantMessage(assistantPrompt)] + prevMessages + [UserMessage(prompt)]
  }

  /** The response format built from the caller's optional tag; `knownTypes`
      are the raw values of the schema's enum, and `init(rawValue:)` yields no
      case for any other tag. */
  function ComposeResponseFormat(responseFormatType: Option<string>, knownTypes: set<string>)
    : (r: Option<ResponseFormat>)
    ensures r.Some? <==> responseFormatType.Some?
    ensures r.Some? ==> (r.value.formatType.Some? <==> responseFormatType.value in knownTypes)
    ensures r.Some? && r.value.formatType.Some? ==> r.value.formatType.value == responseFormatType.value
  {
    match responseFormatType
    case None => None
    case Some(tag) => Some(ResponseFormat(if tag in knownTypes then Some(tag) else None))
  }

  /** The request body `promptChatGPT` sends. */
  function ComposeChatRequest(
    prompt: string, model: ChatModel, assistantPrompt: string,
    responseFormatType: Option<string>, prevMessages: seq<Message>, knownTypes: set<string>)
    : (r: ChatRequest)
    ensures r.model == model
    ensures |r.messages| == |prevMessages| + 2
    ensures r.messages[0] == AssistantMessage(assistantPrompt)
    ensures r.messages[1..|r.messages| - 1] == prevMessages
    ensures r.messages[|r.messages| - 1] == UserMessage(prompt)
    ensures r.responseFormat == ComposeResponseFormat(responseFormatType, knownTypes)
    ensures r.responseFormat.Some? <==> responseFormatType.Some?
  {
    ChatRequest(
      ComposeMessages(assistantPrompt, prevMessages, prompt),
      model,
      ComposeResponseFormat(responseFormatType, knownTypes))
  }

  /** Reads a composed message list back into its three parts: the assistant
      prompt, the history and the new prompt. */
  function SplitMessages(messages: seq<Message>): Option<(string, seq<Message>, string)> {
    if |messages| >= 2 && messages[0].AssistantMessage? && messages[|messages| - 1].UserMessage? then
      Some((messages[0].content, messages[1..|messages| - 1], messages[|messages| - 1].content))
    else
      None
  }

  /** Composition loses nothing: the three parts come back out of the list. */
  lemma SplitComposed(assistantPrompt: string, prevMessages: seq<Message>, prompt: string)
    ensures SplitMessages(ComposeMessages(assistantPrompt, prevMessages, prompt))
         == Some((assistantPrompt, prevMessages, prompt))
  {
  }

  /** Every list that starts with an assistant message and ends with a user
      message is the composition of its parts, and of no other parts. */
  lemma ComposedSplit(messages: seq<Message>)
    requires SplitMessages(messages).Some?
    ensures var (a, h, p) := SplitMessages(messages).value;
      ComposeMessages(a, h, p) == messages
  {
    var (a, h, p) := SplitMessages(messages).value;
    assert messages == [messages[0]] + messages[1..|messages| - 1] + [messages[|messages| - 1]];
  }

  /** Continuing a conversation: the list for a follow-up whose history is an
      earlier request's history plus further messages keeps the earlier
      history at the same positions. */
  lemma HistoryIsStable(assistantPrompt: string, prev: seq<Message>, more: seq<Message>, p1: string, p2: string)
    ensures ComposeMessages(assistantPrompt, prev, p1)[..|prev| + 1]
         <= ComposeMessages(assistantPrompt, prev + more, p2)
  {
  }

  // ---------------------------------------------------------------------
  // Responses

  datatype ResponseMessage = ResponseMessage(content: Option<string>)
  datatype Choice = Choice(message: ResponseMessage)
  datatype ChatCompletion = ChatCompletion(choices: seq<Choice>)

  /** The generated client's outcome: `.ok` with the decoded body, or
      `.undocumented` with any status it has no case for. */
  datatype ChatCompletionOutput =
    | Ok(body: ChatCompletion)
    | UndocumentedStatus(statusCode: int, payload: UndocumentedPayload)

  /** The text of the first choice, if there is a first choice with content. */
  function FirstContent(completion: ChatCompletion): Option<string> {
    if |completion.choices| > 0 then completion.choices[0].message.content else None
  }

  /** The result handling shared by `promptChatGPT` and `promptChatGPTVision`. */
  function ResolveChatResponse(output: ChatCompletionOutput): (r: Result<string, ClientError>)
    ensures r.Success? <==>
      output.Ok? && |output.body.choices| > 0 && output.body.choices[0].message.content.Some?
    ensures r.Success? ==> r.value == output.body.choices[0].message.content.value
    ensures output.Ok? && r.Failure? ==> r.error == NoResponse
    ensures output.UndocumentedStatus? ==>
      r == Failure(Undocumented(output.statusCode, output.payload))
  {
    match output
    case Ok(body) =>
      (match FirstContent(body)
       case Some(content) => Success(content)
       case None => Failure(NoResponse))
    case UndocumentedStatus(code, payload) => Failure(Undocumented(code, payload))
  }

  /** An empty answer is never a stand-in for a missing one: an empty string
      is returned only when the first choice's content is the empty string. */
  lemma EmptyTextIsContent(output: ChatCompletionOutput)
    requires ResolveChatResponse(output) == Success("")
    ensures output.Ok? && FirstContent(output.body) == Some("")
  {
  }

  /** Only the first choice matters: choices after it never change the result. */
  lemma OnlyFirstChoiceCounts(first: Choice, rest1: seq<Choice>, rest2: seq<Choice>)
    ensures ResolveChatResponse(Ok(ChatCompletion([first] + rest1)))
         == ResolveChatResponse(Ok(ChatCompletion([first] + rest2)))
  {
  }
}
