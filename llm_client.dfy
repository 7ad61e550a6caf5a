/**
 * `groq_fill_missing` and `groq_answer_question`: one chat-completion
 * request each, and a reply that is the model's text or an error string;
 * neither ever raises.  The HTTP call is a parameter `post` that returns an
 * outcome; the prompt templates are kept as tagged values.
 */
module LlmClient {
  import opened Results

  /** What the prompt embeds: the form for filling, or the form and a question. */
  datatype Prompt =
    | FillForm(form: string)
    | AskAbout(form: string, question: string)

  datatype Request = Request(prompt: Prompt, temperature: real, maxTokens: nat)

  /**
   * What `requests.post` does: either a response, with its status, its raw
   * body and what reading the first choice's message content from its JSON
   * gives (a string, or the message of the exception it raises), or an
   * exception raised by the transport.
   */
  datatype HttpOutcome =
    | Response(status: int, body: string, content: Result<string>)
    | Raised(message: string)

  const ApiError: string := "\U{274C} Groq API error: "
  const RequestFailed: string := "\U{274C} Request failed: "

  /** The request sent when filling the form. */
  function FillRequest(form: string): Request {
    Request(FillForm(form), 0.3, 1500)
  }

  /** The request sent when answering a question about the form. */
  function AskRequest(form: string, question: string): Request {
    Request(AskAbout(form, question), 0.4, 600)
  }

  /** The call succeeded: status 200 and a readable first choice. */
  predicate Succeeded(o: HttpOutcome) {
    o.Response? && o.status == 200 && o.content.Ok?
  }

  /** The text an error reply carries after its marker: the body or the exception message. */
  function Detail(o: HttpOutcome): string {
    match o
    case Raised(m) => m
    case Response(status, body, content) =>
      if status != 200 then body else if content.Err? then content.message else []
  }

  /**
   * The status dispatch shared by both clients.  On success the model's text
   * is returned unchanged; otherwise the result starts with the error marker
   * for a non-200 status or for a raised exception, followed by the body or
   * the message, verbatim.
   */
  function Reply(o: HttpOutcome): (r: string)
    ensures Succeeded(o) ==> r == o.content.value
    ensures !Succeeded(o) ==>
      var marker := if o.Response? && o.status != 200 then ApiError else RequestFailed;
      |marker| <= |r| && r[..|marker|] == marker && r[|marker|..] == Detail(o)
  {
    match o
    case Raised(m) => RequestFailed + m
    case Response(status, body, content) =>
      if status == 200 then
        match content
        case Ok(text) => text
        case Err(m) => RequestFailed + m
      else ApiError + body
  }

  /** An error reply is never empty, so it enables whatever a non-empty text enables. */
  lemma ErrorReplyNonEmpty(o: HttpOutcome)
    ensures !Succeeded(o) ==> |Reply(o)| > |Detail(o)|
  {
  }

  /** `groq_fill_missing(text)`. */
  function FillMissing(form: string, post: Request -> HttpOutcome): string {
    Reply(post(FillRequest(form)))
  }

  /** `groq_answer_question(text, question)`. */
  function AnswerQuestion(form: string, question: string, post: Request -> HttpOutcome): string {
    Reply(post(AskRequest(form, question)))
  }

  /**
   * Filling sends the form at temperature 0.3 with at most 1500 tokens and
   * returns the model's text on success, the marked body on a non-200 status
   * and a marked, never empty, message when anything raises.
   */
  lemma FillReply(form: string, post: Request -> HttpOutcome)
    ensures var o := post(Request(FillForm(form), 0.3, 1500));
            && (Succeeded(o) ==> FillMissing(form, post) == o.content.value)
            && (o.Response? && o.status != 200 ==> FillMissing(form, post) == ApiError + o.body)
            && (o.Raised? ==> FillMissing(form, post) == RequestFailed + o.message)
            && (!Succeeded(o) ==> FillMissing(form, post) != [])
  {
  }

  /**
   * Answering sends the form and the question at temperature 0.4 with at
   * most 600 tokens, with the same replies as filling.
   */
  lemma AnswerReply(form: string, question: string, post: Request -> HttpOutcome)
    ensures var o := post(Request(AskAbout(form, question), 0.4, 600));
            && (Succeeded(o) ==> AnswerQuestion(form, question, post) == o.content.value)
            && (o.Response? && o.status != 200 ==> AnswerQuestion(form, question, post) == ApiError + o.body)
            && (o.Raised? ==> AnswerQuestion(form, question, post) == RequestFailed + o.message)
            && (!Succeeded(o) ==> AnswerQuestion(form, question, post) != [])
  {
  }
}
