/** `LLMCleanupProcessor`: which frames go to the language model, and what
    text comes back when the call answers, answers with nothing, or fails.
    The model itself is an oracle `llm` from request to reply. */
module LlmCleanup {
  import opened Common
  import opened Frames

  /** The system prompt sent with every request. */
  const CLEANUP_SYSTEM_PROMPT: string :=
    "You are a dictation cleanup assistant. Your task is to clean up transcribed speech.\n\n"
    + "Rules:\n"
    + "- Remove filler words (um, uh, like, you know, basically, actually, literally, sort of, kind of)\n"
    + "- Fix grammar and punctuation\n"
    + "- Capitalize sentences properly\n"
    + "- Keep the original meaning and tone intact\n"
    + "- Do NOT add any new information or change the intent\n"
    + "- Output ONLY the cleaned text, nothing else - no explanations, no quotes, no prefixes\n\n"
    + "Example:\n"
    + "Input: \"um so basically I was like thinking we should uh you know update the readme file\"\n"
    + "Output: I was thinking we should update the readme file."

  datatype Message = Message(role: string, content: string)

  /** The arguments of `chat.completions.create`. */
  datatype ChatRequest = ChatRequest(
    model: string, messages: seq<Message>, stream: bool, temperature: real, maxTokens: nat)

  /** What the call gives back: an exception (a failed request, or a reply
      without choices), or the first choice's message content, which may be
      `None`. */
  datatype Reply = Raised | Returned(content: Option<string>)

  /** The single non-streaming request `_cleanup_text` makes for `text`. */
  function CleanupRequest(modelName: string, text: string): (q: ChatRequest)
    ensures q.model == modelName && !q.stream && q.temperature == 0.3 && q.maxTokens == 500
    ensures |q.messages| == 2
    ensures q.messages[0] == Message("system", CLEANUP_SYSTEM_PROMPT)
    ensures q.messages[1] == Message("user", text)
  {
    ChatRequest(modelName, [Message("system", CLEANUP_SYSTEM_PROMPT), Message("user", text)], false, 0.3, 500)
  }

  /** `_cleanup_text`: the reply's content, stripped, when there is some;
      the original text when the content is empty or `None` or the call
      raised. */
  function CleanupText(llm: ChatRequest -> Reply, modelName: string, text: string): (r: string)
  {
    match llm(CleanupRequest(modelName, text))
    case Returned(Some(content)) =>
      if content != [] then Strip(content) else text
    case _ => text
  }

  /** The fallback rules, one reply at a time. */
  lemma CleanupTextSpec(llm: ChatRequest -> Reply, modelName: string, text: string)
    ensures var reply, r := llm(CleanupRequest(modelName, text)), CleanupText(llm, modelName, text);
      && (reply == Raised ==> r == text)
      && (reply == Returned(None) || reply == Returned(Some("")) ==> r == text)
      && (reply.Returned? && reply.content.Some? && reply.content.value != [] ==>
            r == Strip(reply.content.value) && NoEdgeSpace(r))
  {
  }

  /** The cleaned text is empty only when the input was, or when the model
      answered with whitespace and nothing else. */
  lemma CleanupEmpty(llm: ChatRequest -> Reply, modelName: string, text: string)
    requires CleanupText(llm, modelName, text) == []
    ensures var reply := llm(CleanupRequest(modelName, text));
      text == [] || (reply.Returned? && reply.content.Some? && reply.content.value != []
                     && IsBlank(reply.content.value))
  {
  }

  /** `process_frame`: a final transcription with some non-whitespace text
      is replaced by one `TextFrame` with the cleaned text; one that is blank
      is dropped; every other frame, interim transcriptions included, goes on
      unchanged. */
  function ProcessFrame(llm: ChatRequest -> Reply, modelName: string, frame: Frame, direction: Direction): (pushed: seq<Push>)
    ensures |pushed| <= 1
    ensures pushed == [] <==> frame.TranscriptionFrame? && IsBlank(frame.text)
    ensures !frame.TranscriptionFrame? ==> pushed == [Push(frame, direction)]
    ensures frame.TranscriptionFrame? && !IsBlank(frame.text) ==>
      pushed == [Push(TextFrame(CleanupText(llm, modelName, frame.text)), direction)]
    ensures frame.TranscriptionFrame? ==> Push(frame, direction) !in pushed
  {
    if frame.TranscriptionFrame? then
      if frame.text != [] && !IsBlank(frame.text) then
        [Push(TextFrame(CleanupText(llm, modelName, frame.text)), direction)]
      else []
    else [Push(frame, direction)]
  }
}
