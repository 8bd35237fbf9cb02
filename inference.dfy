/** The inference check (test_inference_access): one chat-completion request with the key
    as bearer token, and a three-way reading of its status. */
module Inference {
  import opened Http

  const ChatCompletionsUrl: string := InferenceBase + "/chat/completions"
  const JsonContentType: string := "application/json"
  const ProbeModel: string := "meta/llama-3.1-8b-instruct"
  const ProbeRole: string := "user"
  const ProbePrompt: string := "Ping"
  const ProbeMaxTokens: nat := 1

  /** What the check reports. */
  datatype Outcome =
    | NoKey                                 // empty key: the check returns at once
    | KeyValid                              // status 200
    | KeyInvalid                            // status 401: invalid or expired key
    | Failed(status: int, body: string)     // any other status, with the raw body
    | ConnectionError(cause: string)        // the request raised

  /** The outcome together with every request the check sent, in order. */
  datatype Run = Run(outcome: Outcome, requests: seq<Request>)

  /** The single request of the check: a JSON POST to the chat-completions path that carries
      the key only as its bearer token, with the fixed one-token "Ping" payload. */
  function ProbeRequest(key: string): (r: Request)
    ensures r.PostChat? && r.bearer == key
    ensures r.url == "https://integrate.api.nvidia.com/v1/chat/completions"
    ensures r.contentType == "application/json"
    ensures r.model == "meta/llama-3.1-8b-instruct" && r.role == "user"
    ensures r.prompt == "Ping" && r.maxTokens == 1
  {
    PostChat(ChatCompletionsUrl, key, JsonContentType, ProbeModel, ProbeRole, ProbePrompt, ProbeMaxTokens)
  }

  /** test_inference_access, with the key already read and `response` standing for what
      the POST would produce. */
  function Check(key: string, response: Response): (run: Run)
    ensures run.requests == [] <==> key == ""
    ensures key != "" ==> run.requests == [ProbeRequest(key)]
    ensures run.outcome == NoKey <==> key == ""
    ensures run.outcome == KeyValid <==> key != "" && HasStatus(response, 200)
    ensures run.outcome == KeyInvalid <==> key != "" && HasStatus(response, 401)
    ensures run.outcome.Failed? <==>
      key != "" && response.Reply? && response.status != 200 && response.status != 401
    ensures run.outcome.Failed? ==> run.outcome == Failed(response.status, response.body)
    ensures run.outcome.ConnectionError? <==> key != "" && response.TransportError?
    ensures run.outcome.ConnectionError? ==> run.outcome.cause == response.cause
  {
    if key == "" then Run(NoKey, [])
    else
      var outcome :=
        match response
        case TransportError(cause) => ConnectionError(cause)
        case Reply(status, body) =>
          if status == 200 then KeyValid
          else if status == 401 then KeyInvalid
          else Failed(status, body);
      Run(outcome, [ProbeRequest(key)])
  }

  /** With an empty key nothing is sent, so what the endpoint would have said is irrelevant. */
  lemma EmptyKeyIgnoresResponse(r1: Response, r2: Response)
    ensures Check("", r1) == Check("", r2) == Run(NoKey, [])
  {
  }
}
