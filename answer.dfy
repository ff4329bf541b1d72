/**
 * Answer generation (`generate_answer` and `rag_query` of server/rag_utils.py).
 *
 * The language-model client is a function from a request to an outcome; a
 * `Reply` carries the answer text together with the requests that were sent,
 * so that "no call is made" and "exactly one call is made" can be stated.
 */
module Answer {
  import opened Wrappers
  import opened Text
  import Retrieval

  const MODEL_NAME := "deepseek-chat"

  /** `API_TEMPERATURE = 0.7`; it is only passed on to the client. */
  const API_TEMPERATURE: real := 0.7

  const NO_CLIENT := "OpenAI client is not initialized. Cannot generate answer."
  const DRY_RUN_REPLY := "[Server in dry-run mode - No API call made]"
  const NOT_LOADED := "Knowledge base not loaded."
  const API_ERROR_PREFIX := "Sorry, there was an API error while contacting OpenAI: "
  const UNEXPECTED_ERROR_PREFIX := "Sorry, an unexpected error occurred: "

  /** The message Python gives when a completion has no content and `.strip()` is called on None. */
  const NONE_CONTENT_ERROR := "'NoneType' object has no attribute 'strip'"

  const CONTEXT_SYSTEM_PROMPT := "You are a knowledgeable wine expert assistant. Please prioritize answering based on the provided context. If the context is relevant, mention that you're basing your answer on that context. If the context isn't relevant or insufficient to answer the question, use your own knowledge to provide the best possible answer. Respond in Chinese."
  const PLAIN_SYSTEM_PROMPT := "You are a knowledgeable wine expert assistant. Respond in Chinese."

  /** The fixed pieces of the user prompt that wraps a non-empty context. */
  const CONTEXT_HEADER := "Wine context:\n---\n"
  const QUESTION_HEADER := "\n---\n\nQuestion: "
  const ANSWER_CUE := "\n\nAnswer:"

  /** How much of a message the dry-run log shows before "...". */
  const PREVIEW_LENGTH: nat := 200

  datatype Role = System | User
  datatype Message = Message(role: Role, content: string)
  datatype Request = Request(model: string, messages: seq<Message>, temperature: real)

  /**
   * What one call of the client gives: a completion (whose content may be
   * missing), an `openai.APIError`, or any other exception.
   */
  datatype Outcome = Completion(content: Option<string>) | ApiError(detail: string) | OtherError(detail: string)

  type Client = Request -> Outcome

  /** The answer text and the requests sent to the client, in order. */
  datatype Reply = Reply(answer: string, requests: seq<Request>)

  function UserPrompt(context: string, query: string): string {
    CONTEXT_HEADER + context + QUESTION_HEADER + query + ANSWER_CUE
  }

  /** The system and user messages for a query and its (possibly empty) context. */
  function BuildMessages(query: string, context: string): (messages: seq<Message>)
    ensures |messages| == 2 && messages[0].role == System && messages[1].role == User
  {
    if context != [] then
      [Message(System, CONTEXT_SYSTEM_PROMPT), Message(User, UserPrompt(context, query))]
    else
      [Message(System, PLAIN_SYSTEM_PROMPT), Message(User, query)]
  }

  /** The content shown for a message in the dry-run log. */
  function Preview(content: string): string {
    if |content| > PREVIEW_LENGTH then content[..PREVIEW_LENGTH] + "..." else content
  }

  /**
   * The answer text made from the client's outcome: a completion's content
   * with the white space at both ends cut off, or an error text from which the error's
   * detail can be read back after its fixed prefix.
   */
  function Render(outcome: Outcome): (a: string)
    ensures outcome.Completion? && outcome.content.Some? ==>
      && TrimmedFrom(a, outcome.content.value)
      && (a == [] <==> IsBlank(outcome.content.value))
      && (a != [] ==> !IsSpace(a[0]) && !IsSpace(a[|a| - 1]))
    ensures outcome.ApiError? ==> StartsWith(a, API_ERROR_PREFIX) && a[|API_ERROR_PREFIX|..] == outcome.detail
    ensures outcome.OtherError? ==> StartsWith(a, UNEXPECTED_ERROR_PREFIX) && a[|UNEXPECTED_ERROR_PREFIX|..] == outcome.detail
    ensures outcome == Completion(None) ==>
      StartsWith(a, UNEXPECTED_ERROR_PREFIX) && a[|UNEXPECTED_ERROR_PREFIX|..] == NONE_CONTENT_ERROR
  {
    match outcome
    case Completion(Some(text)) => StripIsInfix(text); Strip(text)
    case Completion(None) => UNEXPECTED_ERROR_PREFIX + NONE_CONTENT_ERROR
    case ApiError(detail) => API_ERROR_PREFIX + detail
    case OtherError(detail) => UNEXPECTED_ERROR_PREFIX + detail
  }

  /** The text after `prefix`, when `answer` starts with it. */
  function DetailAfter(answer: string, prefix: string): (detail: Option<string>)
    ensures detail.Some? <==> StartsWith(answer, prefix)
    ensures detail.Some? ==> answer == prefix + detail.value
  {
    if StartsWith(answer, prefix) then
      assert answer == prefix + answer[|prefix|..];
      Some(answer[|prefix|..])
    else None
  }

  /**
   * `generate_answer(query, context_str, client, is_dry_run)`: without a client,
   * the not-initialized text; with one in dry-run mode, the fixed notice; in
   * both cases nothing is sent. Otherwise exactly one request with the built
   * messages is sent, and the answer renders that request's outcome.
   */
  function GenerateAnswer(query: string, context: string, client: Option<Client>, dryRun: bool): (r: Reply)
    ensures client.None? ==> r == Reply(NO_CLIENT, [])
    ensures client.Some? && dryRun ==> r == Reply(DRY_RUN_REPLY, [])
    ensures |r.requests| <= 1 && (r.requests != [] <==> client.Some? && !dryRun)
    ensures r.requests != [] ==>
      && r.requests[0] == Request(MODEL_NAME, BuildMessages(query, context), API_TEMPERATURE)
      && r.answer == Render(client.value(r.requests[0]))
  {
    if client.None? then Reply(NO_CLIENT, [])
    else
      var request := Request(MODEL_NAME, BuildMessages(query, context), API_TEMPERATURE);
      if dryRun then Reply(DRY_RUN_REPLY, [])
      else Reply(Render(client.value(request)), [request])
  }

  /**
   * The context `rag_query` hands to `generate_answer` once the knowledge is
   * loaded: the whole knowledge for a single file; otherwise text that splits
   * back into exactly the retrieved lines, empty exactly when none is retrieved.
   */
  function QueryContext(query: string, knowledge: string, isSingleFile: bool, seg: Retrieval.Segmenter, nonWord: Retrieval.NonWordTest): (c: string)
    ensures isSingleFile ==> c == knowledge
    ensures !isSingleFile ==>
      var relevant := Retrieval.Retrieve(query, Some(knowledge), seg, nonWord);
      && SplitLines(c) == relevant
      && (c == [] <==> relevant == [])
  {
    if isSingleFile then knowledge
    else
      var relevant := Retrieval.Retrieve(query, Some(knowledge), seg, nonWord);
      Retrieval.RetrieveSound(query, knowledge, seg, nonWord);
      SplitLinesHaveNoBreaks(knowledge);
      assert forall l <- relevant :: l != [] && NoLineBreak(l) by {
        forall l <- relevant ensures l != [] && NoLineBreak(l) {
          assert l in SplitLines(knowledge);
        }
      }
      SplitLinesOfJoin(relevant);
      if relevant != [] then Join(relevant, "\n") else ""
  }

  /**
   * `rag_query(query, current_knowledge, current_is_single_file, client, is_dry_run)`:
   * without knowledge, the not-loaded text and no request. Otherwise the answer
   * paths of `generate_answer`, where the one request, when there is one, carries
   * the messages built from the context the mode selects.
   */
  function RagQuery(query: string, knowledge: Option<string>, isSingleFile: bool, client: Option<Client>, dryRun: bool,
                    seg: Retrieval.Segmenter, nonWord: Retrieval.NonWordTest): (r: Reply)
    ensures knowledge.None? ==> r == Reply(NOT_LOADED, [])
    ensures knowledge.Some? && client.None? ==> r == Reply(NO_CLIENT, [])
    ensures knowledge.Some? && client.Some? && dryRun ==> r == Reply(DRY_RUN_REPLY, [])
    ensures |r.requests| <= 1 && (r.requests != [] <==> knowledge.Some? && client.Some? && !dryRun)
    ensures r.requests != [] ==>
      && r.requests[0].messages == BuildMessages(query, QueryContext(query, knowledge.value, isSingleFile, seg, nonWord))
      && r.answer == Render(client.value(r.requests[0]))
  {
    if knowledge.None? then Reply(NOT_LOADED, [])
    else GenerateAnswer(query, QueryContext(query, knowledge.value, isSingleFile, seg, nonWord), client, dryRun)
  }

  // ---- Lemmas ----

  /**
   * A missing client is reported before anything else, even in dry-run mode,
   * and nothing is sent (a corollary of `GenerateAnswer`'s contract).
   */
  lemma NoClientWins(query: string, context: string, dryRun: bool)
    ensures GenerateAnswer(query, context, None, dryRun) == Reply(NO_CLIENT, [])
  {
  }

  /**
   * In dry-run mode with a client, the answer is the fixed notice, no request
   * is sent, and so the answer does not depend on the client at all.
   */
  lemma DryRunMakesNoCall(query: string, context: string, client: Client, other: Client)
    ensures GenerateAnswer(query, context, Some(client), true) == Reply(DRY_RUN_REPLY, [])
    ensures GenerateAnswer(query, context, Some(client), true) == GenerateAnswer(query, context, Some(other), true)
  {
  }

  /**
   * In live mode exactly one request is sent: the configured model, the two
   * messages and the temperature; the answer is the rendered outcome of that
   * very request (a corollary of `GenerateAnswer`'s contract).
   */
  lemma LiveMakesOneCall(query: string, context: string, client: Client)
    ensures var reply := GenerateAnswer(query, context, Some(client), false);
      && |reply.requests| == 1
      && reply.requests[0].model == MODEL_NAME
      && reply.requests[0].temperature == API_TEMPERATURE
      && reply.requests[0].messages == BuildMessages(query, context)
      && reply.answer == Render(client(reply.requests[0]))
  {
  }

  /** At most one request is ever sent, and one is sent exactly when there is a client and dry-run is off. */
  lemma AtMostOneCall(query: string, context: string, client: Option<Client>, dryRun: bool)
    ensures var reply := GenerateAnswer(query, context, client, dryRun);
      && |reply.requests| <= 1
      && (|reply.requests| == 1 <==> client.Some? && !dryRun)
  {
  }

  /**
   * Without context the user message is the query itself under the short
   * system prompt; with context, the user message holds the context between
   * the "---" lines, then the question, then the answer cue.
   */
  lemma MessagesLayout(query: string, context: string)
    ensures var m := BuildMessages(query, context);
      && (context == [] ==> m[0].content == PLAIN_SYSTEM_PROMPT && m[1].content == query)
      && (context != [] ==>
           var p := m[1].content;
           var c := |CONTEXT_HEADER|;
           var q := c + |context| + |QUESTION_HEADER|;
           && m[0].content == CONTEXT_SYSTEM_PROMPT
           && |p| == q + |query| + |ANSWER_CUE|
           && StartsWith(p, CONTEXT_HEADER)
           && p[c..c + |context|] == context
           && p[c + |context|..q] == QUESTION_HEADER
           && p[q..q + |query|] == query
           && EndsWith(p, ANSWER_CUE))
  {
    if context != [] {
      var p := UserPrompt(context, query);
      var c := |CONTEXT_HEADER|;
      var q := c + |context| + |QUESTION_HEADER|;
      assert p[..c] == CONTEXT_HEADER;
      assert p[c..c + |context|] == context;
      assert p[c + |context|..q] == QUESTION_HEADER;
      assert p[q..q + |query|] == query;
      assert p[|p| - |ANSWER_CUE|..] == ANSWER_CUE;
    }
  }

  /** The same query with two different contexts gives two different prompts. */
  lemma PromptDeterminesContext(query: string, c1: string, c2: string)
    requires UserPrompt(c1, query) == UserPrompt(c2, query)
    ensures c1 == c2
  {
    var h := |CONTEXT_HEADER|;
    assert c1 == UserPrompt(c1, query)[h..h + |c1|];
    assert c2 == UserPrompt(c2, query)[h..h + |c2|];
  }

  /** The dry-run preview: short contents unchanged, long ones cut to 200 characters plus "...". */
  lemma PreviewShape(content: string)
    ensures var p := Preview(content);
      && |p| <= PREVIEW_LENGTH + 3
      && (|content| <= PREVIEW_LENGTH ==> p == content)
      && (|content| > PREVIEW_LENGTH ==> |p| == PREVIEW_LENGTH + 3 && StartsWith(content, p[..PREVIEW_LENGTH]) && EndsWith(p, "..."))
  {
    var p := Preview(content);
    if |content| > PREVIEW_LENGTH {
      assert p[..PREVIEW_LENGTH] == content[..PREVIEW_LENGTH];
      assert p[|p| - 3..] == "...";
    }
  }

  /**
   * The two error formats give back their detail: an API error's answer is the
   * API prefix followed by exactly the error text, and likewise for any other error.
   */
  lemma ErrorDetailRoundTrip(detail: string)
    ensures DetailAfter(Render(ApiError(detail)), API_ERROR_PREFIX) == Some(detail)
    ensures DetailAfter(Render(OtherError(detail)), UNEXPECTED_ERROR_PREFIX) == Some(detail)
    ensures DetailAfter(Render(Completion(None)), UNEXPECTED_ERROR_PREFIX) == Some(NONE_CONTENT_ERROR)
  {
    assert (API_ERROR_PREFIX + detail)[|API_ERROR_PREFIX|..] == detail;
    assert (UNEXPECTED_ERROR_PREFIX + detail)[|UNEXPECTED_ERROR_PREFIX|..] == detail;
    assert (UNEXPECTED_ERROR_PREFIX + NONE_CONTENT_ERROR)[|UNEXPECTED_ERROR_PREFIX|..] == NONE_CONTENT_ERROR;
  }

  /**
   * A completion's answer is its content with only white space cut off before
   * and after it, no white space left at either end, and empty only for blank
   * content; together these fix the answer.
   */
  lemma CompletionIsStripped(text: string)
    ensures var a := Render(Completion(Some(text)));
      && TrimmedFrom(a, text)
      && (a == [] <==> IsBlank(text))
      && (a != [] ==> !IsSpace(a[0]) && !IsSpace(a[|a| - 1]))
  {
  }

  /** Without knowledge, `rag_query` reports it and makes no call, whatever the client or mode. */
  lemma NotLoadedWins(query: string, isSingleFile: bool, client: Option<Client>, dryRun: bool,
                      seg: Retrieval.Segmenter, nonWord: Retrieval.NonWordTest)
    ensures RagQuery(query, None, isSingleFile, client, dryRun, seg, nonWord) == Reply(NOT_LOADED, [])
  {
  }

  /** A single file is used whole as the context, without retrieval. */
  lemma SingleFileContext(query: string, knowledge: string, seg: Retrieval.Segmenter, nonWord: Retrieval.NonWordTest)
    ensures QueryContext(query, knowledge, true, seg, nonWord) == knowledge
  {
  }

  /**
   * From a directory scan, the context is the retrieved lines joined by "\n";
   * the `if relevant_lines` guard changes nothing, since joining no lines gives
   * "" too. The context is empty exactly when no line is retrieved, and
   * splitting it into lines gives back the retrieved lines.
   */
  lemma {:induction false} DirectoryContext(query: string, knowledge: string, seg: Retrieval.Segmenter, nonWord: Retrieval.NonWordTest)
    ensures var relevant := Retrieval.Retrieve(query, Some(knowledge), seg, nonWord);
      var context := QueryContext(query, knowledge, false, seg, nonWord);
      && context == Join(relevant, "\n")
      && (context == [] <==> relevant == [])
      && SplitLines(context) == relevant
  {
    var relevant := Retrieval.Retrieve(query, Some(knowledge), seg, nonWord);
    Retrieval.RetrieveSound(query, knowledge, seg, nonWord);
    SplitLinesHaveNoBreaks(knowledge);
    forall l <- relevant ensures l != [] && NoLineBreak(l) {
      assert l in SplitLines(knowledge);
    }
    SplitLinesOfJoin(relevant);
  }

  /**
   * With knowledge loaded, a client and dry-run off, `rag_query` sends exactly
   * one request, whose messages are built from the query and the context.
   */
  lemma RagQueryRequest(query: string, knowledge: string, isSingleFile: bool, client: Client,
                        seg: Retrieval.Segmenter, nonWord: Retrieval.NonWordTest)
    ensures var reply := RagQuery(query, Some(knowledge), isSingleFile, Some(client), false, seg, nonWord);
      && reply.requests == [Request(MODEL_NAME, BuildMessages(query, QueryContext(query, knowledge, isSingleFile, seg, nonWord)), API_TEMPERATURE)]
      && reply.answer == Render(client(reply.requests[0]))
  {
  }
}
