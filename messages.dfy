/** The application payload of the `/mesh-ai/1.0.0` request-response protocol. */
module Messages {
  import opened Wrappers

  datatype PromptRequest = PromptRequest(prompt: string)

  datatype PromptResponse = PromptResponse(response: string)

  const BackendErrorPrefix: string := "Error calling Ollama: "

  /**
   * The text a server puts in its PromptResponse: the backend's reply, or the
   * backend's error behind a fixed prefix. A backend failure is never a protocol failure.
   */
  function ResponseText(reply: Result<string, string>): (text: string)
    ensures reply.Success? ==> text == reply.value
    ensures reply.Failure? ==> |text| == |BackendErrorPrefix| + |reply.error|
    ensures reply.Failure? ==> text[..|BackendErrorPrefix|] == BackendErrorPrefix
    ensures reply.Failure? ==> text[|BackendErrorPrefix|..] == reply.error
  {
    match reply
    case Success(generated) => generated
    case Failure(e) => BackendErrorPrefix + e
  }

  /** Reads the backend error back out of an error response text. */
  function ErrorDetail(text: string): (r: Option<string>)
    ensures r.Some? ==> BackendErrorPrefix + r.value == text
  {
    if |BackendErrorPrefix| <= |text| && text[..|BackendErrorPrefix|] == BackendErrorPrefix
    then Some(text[|BackendErrorPrefix|..])
    else None
  }

  /** ResponseText and ErrorDetail round-trip on backend errors: the error reaches the client intact. */
  lemma ErrorResponseRoundTrip(e: string)
    ensures ErrorDetail(ResponseText(Failure(e))) == Some(e)
  {
  }
}
