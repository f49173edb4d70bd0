/** What the generative-model SDK hands back, and how both providers read a reply's
    text out of it. The request itself is network traffic and is not modelled: a call
    is represented by what it produced, a response or a thrown value. */
module Oracle {
  import opened Wrappers

  datatype Part = Part(text: Option<string>)
  datatype Content = Content(parts: Option<seq<Part>>)
  datatype Candidate = Candidate(content: Option<Content>)

  /** `text` is the SDK's direct text accessor, already evaluated when it is a getter
      or a function; `candidates` is the nested candidate/parts structure. */
  datatype Response = Response(text: Option<string>, candidates: Option<seq<Candidate>>)

  /** A thrown JavaScript value: an `Error` with its message, or anything else. */
  datatype Thrown = ErrorObject(message: string) | OtherValue

  /** What one `generateContent` call did. */
  datatype CallOutcome = Threw(error: Thrown) | Returned(response: Response)

  datatype Language = Zh | En

  /** What an image-analysis request carries besides the prompt text: the model, the
      inline image and the language the prompt asks for. */
  datatype ImageRequest = ImageRequest(model: string, mimeType: string, data: string, language: Language)

  const ModelName := "gemini-2.5-flash"
  const DefaultMimeType := "image/jpeg"
  const EmptyResponseMessage := "Empty response from AI"
  const InvalidJsonMessage := "Invalid JSON response from AI"

  /** The direct text field, with an absent one read as empty (it is falsy either way). */
  function DirectText(r: Response): string {
    r.text.GetOr("")
  }

  /** `candidates[0].content.parts[0].text || ""`, empty when any step is missing. */
  function FirstPartText(r: Response): string {
    if r.candidates.Some? && |r.candidates.value| > 0 then
      var content := r.candidates.value[0].content;
      if content.Some? && content.value.parts.Some? && |content.value.parts.value| > 0
      then content.value.parts.value[0].text.GetOr("")
      else ""
    else ""
  }

  /** The reply text: the direct field when it is non-empty, otherwise the first
      candidate's first part. */
  function ReplyText(r: Response): string {
    if DirectText(r) != "" then DirectText(r) else FirstPartText(r)
  }

  /** Reads the reply text the way both providers do, one branch at a time. */
  method ReadText(response: Response) returns (text: string)
    ensures text == ReplyText(response)
    ensures DirectText(response) != "" ==> text == DirectText(response)
    ensures DirectText(response) == "" ==> text == FirstPartText(response)
    ensures text == "" <==> DirectText(response) == "" && FirstPartText(response) == ""
  {
    text := "";
    if response.text.Some? && response.text.value != "" {
      text := response.text.value;
    } else if response.candidates.Some? && |response.candidates.value| > 0 {
      var candidate := response.candidates.value[0];
      if candidate.content.Some? && candidate.content.value.parts.Some? && |candidate.content.value.parts.value| > 0 {
        text := candidate.content.value.parts.value[0].text.GetOr("");
      }
    }
  }
}
