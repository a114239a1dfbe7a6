/**
 * How the generator's call to the Ollama server turns into document text
 * (`generate_text`): an unreachable server yields a fixed apology text
 * instead of an exception, a reply with an error status or a body that is
 * not a JSON object raises, and otherwise the `response` field of the
 * reply is the text, or `""` when the field is missing.
 *
 * The prompt the generator builds around the evidence and the HTTP request
 * itself are not modelled: the reply the server gives is the input.
 */
module Generation {
  import opened Results

  /** What `generate_text` returns when the server cannot be reached. */
  const CONNECTION_ERROR_TEXT: string := "Error: Could not connect to Ollama. Make sure it is running."

  /** The decoded body of a reply. */
  datatype ReplyBody = JsonObject(response: Option<string>) | NotAnObject(message: string)

  /**
   * How the server answered: not at all (a transport error), or with a
   * status code, the message an error status raises with, and a body.
   */
  datatype OllamaReply =
    | Unreachable(cause: string)
    | Answered(status: nat, statusMessage: string, body: ReplyBody)

  predicate IsSuccessStatus(status: nat)
  {
    200 <= status < 300
  }

  /**
   * The text `generate_text` returns, or the message of the exception it
   * raises.
   */
  function GenerateText(reply: OllamaReply): Result<string, string>
  {
    match reply
    case Unreachable(_) => Success(CONNECTION_ERROR_TEXT)
    case Answered(status, statusMessage, body) =>
      if !IsSuccessStatus(status) then Failure(statusMessage)
      else
        match body
        case NotAnObject(message) => Failure(message)
        case JsonObject(response) =>
          match response
          case Some(text) => Success(text)
          case None => Success("")
  }

  /**
   * A server that cannot be reached never makes generation fail: the
   * caller receives the fixed apology text as if it were the document.
   */
  lemma UnreachableIsText(cause: string)
    ensures GenerateText(Unreachable(cause)) == Success(CONNECTION_ERROR_TEXT)
  {
  }

  /**
   * Generation fails exactly when the server answered with a status
   * outside 200-299 or with a body that is not a JSON object.
   */
  lemma GenerateFailsIff(reply: OllamaReply)
    ensures GenerateText(reply).Failure? <==>
      reply.Answered? && (!IsSuccessStatus(reply.status) || reply.body.NotAnObject?)
  {
  }

  /** A successful reply's text is its `response` field, or empty when the field is missing. */
  lemma GenerateReturnsResponse(status: nat, statusMessage: string, response: Option<string>)
    requires IsSuccessStatus(status)
    ensures var r := GenerateText(Answered(status, statusMessage, JsonObject(response)));
      && r.Success?
      && (response.Some? ==> r.value == response.value)
      && (response.None? ==> r.value == "")
  {
  }
}
