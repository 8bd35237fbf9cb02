/** The container-access check (test_container_access): parse the image reference, ask the
    registry for a pull token with basic auth, and only after a 200 ask for the manifest of
    the parsed repository and tag with that token. */
module Registry {
  import opened Http
  import opened ImageRef

  /** The fixed basic-auth user name; the key is the password. */
  const AuthUser: string := "$oauthtoken"
  const ManifestMediaType: string := "application/vnd.docker.distribution.manifest.v2+json"

  const AuthUrlHead: string := "https://nvcr.io/proxy_auth?scope=repository:"
  const AuthUrlTail: string := ":pull&service=nvcr.io"
  const ManifestPath: string := "/manifests/"

  /** The token endpoint, scoped to pulling `repo`: the repository can be read back from
      the scope, between the fixed head and the fixed tail. */
  function AuthUrl(repo: string): (url: string)
    ensures |url| == |AuthUrlHead| + |repo| + |AuthUrlTail|
    ensures url[..|AuthUrlHead|] == AuthUrlHead
    ensures url[|AuthUrlHead|..|AuthUrlHead| + |repo|] == repo
    ensures url[|AuthUrlHead| + |repo|..] == AuthUrlTail
  {
    AuthUrlHead + repo + AuthUrlTail
  }

  /** The manifest endpoint of `repo` at `tag`: the registry base, then the repository,
      then the manifests path, and the tag at the very end. */
  function ManifestUrl(repo: string, tag: string): (url: string)
    ensures |url| == |RegistryBase| + 1 + |repo| + |ManifestPath| + |tag|
    ensures url[..|RegistryBase| + 1] == RegistryBase + "/"
    ensures url[|RegistryBase| + 1..|RegistryBase| + 1 + |repo|] == repo
    ensures url[|RegistryBase| + 1 + |repo|..|url| - |tag|] == ManifestPath
    ensures url[|url| - |tag|..] == tag
  {
    RegistryBase + "/" + repo + ManifestPath + tag
  }

  /** Different repositories get different token URLs. */
  lemma AuthUrlInjective(a: string, b: string)
    requires AuthUrl(a) == AuthUrl(b)
    ensures a == b
  {
    assert |a| == |b|;
    assert a == AuthUrl(a)[|AuthUrlHead|..|AuthUrlHead| + |a|];
  }

  /** For a fixed repository, the manifest URL determines the tag. */
  lemma ManifestUrlInjective(repo: string, t1: string, t2: string)
    requires ManifestUrl(repo, t1) == ManifestUrl(repo, t2)
    ensures t1 == t2
  {
    assert |t1| == |t2|;
    var u := ManifestUrl(repo, t1);
    assert t1 == u[|u| - |t1|..];
  }

  /** What the check reports. */
  datatype Outcome =
    | NoKey                             // empty key: nothing else happens
    | NoContainer                       // empty container string: no request is made
    | AuthUnauthorized                  // token request answered 401
    | AuthError(status: int)            // token request answered something else but 200
    | ImageFound(repo: string, tag: string)  // manifest 200: pull permitted
    | TagNotFound(tag: string)          // manifest 404: authenticated, tag missing
    | Forbidden                         // manifest 403
    | ManifestError(status: int)        // any other manifest status
    | ConnectionError(cause: string)    // either request raised

  /** The outcome together with every request the check sent, in order. */
  datatype Run = Run(outcome: Outcome, requests: seq<Request>)

  /** The token request: basic auth with user "$oauthtoken" and the key as password,
      scoped to the image's repository. */
  function AuthRequest(image: Reference, key: string): (r: Request)
    ensures r.GetWithBasicAuth? && r.user == "$oauthtoken" && r.password == key
    ensures |r.url| == |AuthUrlHead| + |image.repo| + |AuthUrlTail|
    ensures r.url[|AuthUrlHead|..|AuthUrlHead| + |image.repo|] == image.repo
  {
    GetWithBasicAuth(AuthUrl(image.repo), AuthUser, key)
  }

  /** The manifest request: the token as bearer, asking for a v2 manifest of the image's
      repository at its tag. */
  function ManifestRequest(image: Reference, token: string): (r: Request)
    ensures r.GetWithBearer? && r.bearer == token
    ensures r.accept == "application/vnd.docker.distribution.manifest.v2+json"
    ensures |r.url| == |RegistryBase| + 1 + |image.repo| + |ManifestPath| + |image.tag|
    ensures r.url[|RegistryBase| + 1..|RegistryBase| + 1 + |image.repo|] == image.repo
    ensures r.url[|r.url| - |image.tag|..] == image.tag
  {
    GetWithBearer(ManifestUrl(image.repo, image.tag), token, ManifestMediaType)
  }

  /** The reading of the manifest reply once authentication has succeeded. */
  function ManifestOutcome(image: Reference, response: Response): (o: Outcome)
    ensures o == ImageFound(image.repo, image.tag) <==> HasStatus(response, 200)
    ensures o == TagNotFound(image.tag) <==> HasStatus(response, 404)
    ensures o == Forbidden <==> HasStatus(response, 403)
    ensures o.ManifestError? <==>
      response.Reply? && response.status !in {200, 403, 404}
    ensures o.ManifestError? ==> o.status == response.status
    ensures o.ConnectionError? <==> response.TransportError?
    ensures o.ConnectionError? ==> o.cause == response.cause
    ensures o.ImageFound? || o.TagNotFound? || o.Forbidden? || o.ManifestError? || o.ConnectionError?
  {
    match response
    case TransportError(cause) => ConnectionError(cause)
    case Reply(status, _) =>
      if status == 200 then ImageFound(image.repo, image.tag)
      else if status == 404 then TagNotFound(image.tag)
      else if status == 403 then Forbidden
      else ManifestError(status)
  }

  /** test_container_access, with the key and container string already read. `auth` and
      `manifest` stand for what the two GETs would produce and `token` for the token the
      auth reply carries; `manifest` is consulted only when the manifest request is sent. */
  function Check(key: string, container: string, auth: Response, token: string, manifest: Response): (run: Run)
    ensures |run.requests| <= 2
    ensures run.requests == [] <==> key == "" || container == ""
    ensures run.requests != [] ==> run.requests[0] == AuthRequest(ParseImageUri(container), key)
    ensures |run.requests| == 2 <==> key != "" && container != "" && HasStatus(auth, 200)
    ensures |run.requests| == 2 ==> run.requests[1] == ManifestRequest(ParseImageUri(container), token)
    ensures run.outcome == NoKey <==> key == ""
    ensures run.outcome == NoContainer <==> key != "" && container == ""
  {
    if key == "" then Run(NoKey, [])
    else if container == "" then Run(NoContainer, [])
    else
      var image := ParseImageUri(container);
      var first := AuthRequest(image, key);
      match auth
      case TransportError(cause) => Run(ConnectionError(cause), [first])
      case Reply(status, _) =>
        if status == 200 then Run(ManifestOutcome(image, manifest), [first, ManifestRequest(image, token)])
        else if status == 401 then Run(AuthUnauthorized, [first])
        else Run(AuthError(status), [first])
  }

  /** The auth step ends the check on every status but 200, with a single request sent. */
  lemma AuthFailureStops(key: string, container: string, auth: Response, token: string, manifest: Response)
    requires key != "" && container != ""
    requires !HasStatus(auth, 200)
    ensures var run := Check(key, container, auth, token, manifest);
      |run.requests| == 1 &&
      (HasStatus(auth, 401) ==> run.outcome == AuthUnauthorized) &&
      (auth.Reply? && auth.status != 401 ==> run.outcome == AuthError(auth.status)) &&
      (auth.TransportError? ==> run.outcome == ConnectionError(auth.cause))
  {
  }

  /** An auth-failed outcome is reported exactly when the token request answered 401. */
  lemma AuthUnauthorizedIff(key: string, container: string, auth: Response, token: string, manifest: Response)
    ensures Check(key, container, auth, token, manifest).outcome == AuthUnauthorized <==>
      key != "" && container != "" && HasStatus(auth, 401)
  {
  }

  /** Once authenticated, the outcome is the manifest reading for the PARSED repo and tag. */
  lemma AuthorizedReadsManifest(key: string, container: string, auth: Response, token: string, manifest: Response)
    requires key != "" && container != "" && HasStatus(auth, 200)
    ensures var image, run := ParseImageUri(container), Check(key, container, auth, token, manifest);
      run.outcome == ManifestOutcome(image, manifest) &&
      (HasStatus(manifest, 200) <==> run.outcome == ImageFound(image.repo, image.tag)) &&
      (HasStatus(manifest, 404) <==> run.outcome == TagNotFound(image.tag)) &&
      (HasStatus(manifest, 403) <==> run.outcome == Forbidden)
  {
  }

  /** Success is reported exactly when both requests were made and both answered 200. */
  lemma ImageFoundIff(key: string, container: string, auth: Response, token: string, manifest: Response)
    ensures Check(key, container, auth, token, manifest).outcome.ImageFound? <==>
      key != "" && container != "" && HasStatus(auth, 200) && HasStatus(manifest, 200)
  {
  }

  /** The manifest reply and the token matter only after a 200 from the token endpoint. */
  lemma ManifestIgnoredUnlessAuthorized(key: string, container: string, auth: Response,
                                        t1: string, m1: Response, t2: string, m2: Response)
    requires !HasStatus(auth, 200)
    ensures Check(key, container, auth, t1, m1) == Check(key, container, auth, t2, m2)
  {
  }

  /** The registry check sends the requests the script's own example leads to. */
  lemma DocstringRequests(key: string, token: string, manifest: Response)
    requires key != ""
    ensures Check(key, "nvcr.io/nvidia/tensorrt:24.03-py3", Reply(200, "{}"), token, manifest).requests ==
      [GetWithBasicAuth("https://nvcr.io/proxy_auth?scope=repository:nvidia/tensorrt:pull&service=nvcr.io",
                        AuthUser, key),
       GetWithBearer("https://nvcr.io/v2/nvidia/tensorrt/manifests/24.03-py3", token, ManifestMediaType)]
  {
    DocstringExample();
    ExampleAuthUrl();
    ExampleManifestUrl();
  }

  /** Proof step of DocstringRequests: the token URL of the example repository, spelled out. */
  lemma ExampleAuthUrl()
    ensures AuthUrl("nvidia/tensorrt") ==
      "https://nvcr.io/proxy_auth?scope=repository:nvidia/tensorrt:pull&service=nvcr.io"
  {
    var head := AuthUrlHead + "nvidia/tensorrt";
    assert head == "https://nvcr.io/proxy_auth?scope=repository:nvidia/tensorrt";
    assert "https://nvcr.io/proxy_auth?scope=repository:nvidia/tensorrt" + ":pull&service=nvcr.io" ==
      "https://nvcr.io/proxy_auth?scope=repository:nvidia/tensorrt:pull&service=nvcr.io";
  }

  /** Proof step of DocstringRequests: the manifest URL of the example image, spelled out. */
  lemma ExampleManifestUrl()
    ensures ManifestUrl("nvidia/tensorrt", "24.03-py3") ==
      "https://nvcr.io/v2/nvidia/tensorrt/manifests/24.03-py3"
  {
    var repo := RegistryBase + "/" + "nvidia/tensorrt";
    assert repo == "https://nvcr.io/v2/nvidia/tensorrt";
    var path := repo + ManifestPath;
    assert path == "https://nvcr.io/v2/nvidia/tensorrt/manifests/";
    assert path + "24.03-py3" == "https://nvcr.io/v2/nvidia/tensorrt/manifests/24.03-py3";
  }
}
