/** The HTTP layer seen from the two checkers: the requests they send and the replies they
    branch on. The network itself is not modelled; every reply is an input. */
module Http {

  /** Base URL of the inference service (NIM_API_URL). */
  const InferenceBase: string := "https://integrate.api.nvidia.com/v1"
  /** Base URL of the registry's v2 API (REGISTRY_URL). */
  const RegistryBase: string := "https://nvcr.io/v2"

  /** What a request produced: a reply with a status code and a body, or an exception
      raised by the transport (timeout, DNS failure, refused connection). */
  datatype Response = Reply(status: int, body: string) | TransportError(cause: string)

  /** A request a checker issues. */
  datatype Request =
    | PostChat(url: string, bearer: string, contentType: string,
               model: string, role: string, prompt: string, maxTokens: nat)
    | GetWithBasicAuth(url: string, user: string, password: string)
    | GetWithBearer(url: string, bearer: string, accept: string)

  /** The response is a reply carrying exactly this status code. */
  predicate HasStatus(response: Response, code: int)
  {
    response.Reply? && response.status == code
  }
}
