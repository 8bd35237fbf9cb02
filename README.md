# NGC access test, modelled in Dafny

`nvidia/ngc_access_test.py` is an interactive diagnostic. It checks whether an NVIDIA API key
works for two services. The first is the inference API, tested with one chat-completion request.
The second is the nvcr.io container registry: the script asks for a pull token with basic auth,
then fetches the image's manifest with that token. This project models the logic in the script
that can be stated exactly:

- `ImageRef`: `parse_image_uri`. It strips `https://`, then `http://`, then `nvcr.io/`. Each is
  removed at most once and only when it leads the string. Python's `str.split(":")` (split at
  every colon) is modelled as `Split`, with its inverse `Join`. A result of exactly two parts gives
  `(repo, tag)`. Any other result gives `(remainder, "latest")`.
- `Http`: the requests the checkers send and the replies they branch on. A reply is a status and
  a body, or a transport exception.
- `Inference`: `test_inference_access` as a function. Its inputs are the key and the reply the
  POST would get. It returns the outcome and the list of requests it sent.
- `Registry`: `test_container_access` as a function. Its inputs are the key, the container
  string, the auth reply, the token from that reply, and the manifest reply. It returns the
  outcome and the requests it sent, in order. So "the manifest request happens only after auth
  200" and "an empty key or container sends nothing" are statements about that request list.
- `Menu`: `main`. `Dispatch` models one iteration of the loop (lower-case the line, choose an
  action). `Session` gives the sequence of checks a run of input lines starts. `RunMenu` is the
  `while True` loop over a finite input, proved equal to `Session`.

Edge cases decided by the code:
- A string with two or more colons gets tag `"latest"` and keeps every colon in the repo. The
  code needs exactly two parts after splitting on every colon; it does not split on the first one.
- Both schemes are stripped when `https://` comes before `http://`. Only `http://` is stripped
  when it comes first.
- An auth 401 is reported as "auth failed: unauthorized"; any other non-200 auth status is an
  auth error with that status.
- Menu input is lower-cased but not stripped, so `" 1"` is ignored.

## Model

| member | source | states |
|---|---|---|
| ImageRef.IndexOf | nvidia/ngc_access_test.py:31 | the index is that of the first separator, or the length when there is none |
| ImageRef.Split | nvidia/ngc_access_test.py:31 | `str.split`: there is at least one part, and no part contains the separator |
| ImageRef.Join | nvidia/ngc_access_test.py:31-33 | joining n separator-free parts puts exactly n - 1 separators in the text |
| ImageRef.JoinSplit | nvidia/ngc_access_test.py:31 | joining the parts with the separator gives back the original string |
| ImageRef.SplitLength | nvidia/ngc_access_test.py:31-32 | the number of parts is the number of separators plus one, so "exactly two parts" means "exactly one colon" |
| ImageRef.SplitUnique | nvidia/ngc_access_test.py:31 | any list of separator-free parts that joins to s equals Split(s), so Split is fully determined |
| ImageRef.StripPrefix | nvidia/ngc_access_test.py:23-28 | a prefix is removed only when it leads the string (prefix + result == input); otherwise the input is unchanged |
| ImageRef.Stripped | nvidia/ngc_access_test.py:23-28 | the stripped string is never longer than the input and is always a suffix of it |
| ImageRef.ParseImageUri | nvidia/ngc_access_test.py:18-35 | with exactly one colon after stripping, repo + ":" + tag is the stripped string and neither part has a colon; with any other number of colons, the result is (stripped string, "latest") |
| ImageRef.NoPrefixUnchanged | nvidia/ngc_access_test.py:23-28 | input with none of the three prefixes is not changed before the split |
| ImageRef.SchemeAndHostStripped | nvidia/ngc_access_test.py:23-28 | `https://` or `http://` followed by `nvcr.io/` is removed together with the host, whatever follows |
| ImageRef.BothSchemesStripped | nvidia/ngc_access_test.py:23-24 | `https://http://x` loses both schemes, https first |
| ImageRef.SchemesInWrongOrder | nvidia/ngc_access_test.py:23-28 | `http://https://x` loses only `http://`, since the https test runs first |
| ImageRef.HttpsStrippedOnce | nvidia/ngc_access_test.py:23 | `https://` is removed at most once: a doubled one keeps a copy |
| ImageRef.HttpStrippedOnce | nvidia/ngc_access_test.py:24 | `http://` is removed at most once: a doubled one keeps a copy |
| ImageRef.HostStrippedOnce | nvidia/ngc_access_test.py:27-28 | `nvcr.io/` is removed at most once: a doubled one keeps a copy |
| ImageRef.ParseOneColon | nvidia/ngc_access_test.py:31-33 | with exactly one colon, repo and tag are the text before and after it |
| ImageRef.ParseManyColons | nvidia/ngc_access_test.py:31-35 | with two or more colons, the tag is "latest" and the repo still contains a colon |
| ImageRef.DocstringExample | nvidia/ngc_access_test.py:20 | `nvcr.io/nvidia/tensorrt:24.03-py3` parses to (`nvidia/tensorrt`, `24.03-py3`) |
| ImageRef.UntaggedExample | nvidia/ngc_access_test.py:23-35 | `https://nvcr.io/nvidia/tensorrt` parses to (`nvidia/tensorrt`, `latest`) |
| ImageRef.UnprefixedExample | nvidia/ngc_access_test.py:31-33 | `nvidia/tensorrt:latest` is only split |
| ImageRef.TwoColonsExample | nvidia/ngc_access_test.py:31-35 | `localhost:5000/img:1.0` keeps the whole string as repo with tag `latest` |
| Inference.ProbeRequest | nvidia/ngc_access_test.py:48-60 | the one POST goes to `https://integrate.api.nvidia.com/v1/chat/completions` with the key as bearer token, content type `application/json`, model `meta/llama-3.1-8b-instruct`, one `user` message "Ping" and at most 1 token |
| Inference.Check | nvidia/ngc_access_test.py:42-72 | no request iff the key is empty; otherwise exactly the chat-completion POST; success iff 200, invalid key iff 401, failure carrying status and body iff any other status, connection error carrying the exception iff the transport raised |
| Inference.EmptyKeyIgnoresResponse | nvidia/ngc_access_test.py:43 | with an empty key the outcome does not depend on any reply |
| Registry.AuthUrl | nvidia/ngc_access_test.py:102 | the token URL is the fixed `proxy_auth?scope=repository:` head, then the repository, then the fixed `:pull&service=nvcr.io` tail |
| Registry.AuthUrlInjective | nvidia/ngc_access_test.py:102 | different repositories get different token URLs |
| Registry.ManifestUrl | nvidia/ngc_access_test.py:121 | the manifest URL is `https://nvcr.io/v2/`, then the repository, then `/manifests/`, then the tag at the very end |
| Registry.ManifestUrlInjective | nvidia/ngc_access_test.py:121 | for one repository, the manifest URL determines the tag |
| Registry.AuthRequest | nvidia/ngc_access_test.py:102-105 | the token request is a basic-auth GET with user `$oauthtoken` and the key as password, scoped to the repository |
| Registry.ManifestRequest | nvidia/ngc_access_test.py:121-127 | the manifest request is a GET with the token as bearer and the Docker v2 manifest media type as Accept, for the repository and tag |
| Registry.ManifestOutcome | nvidia/ngc_access_test.py:127-143 | image found with the parsed repo and tag iff 200; tag not found, naming the tag, iff 404; forbidden iff 403; error carrying the status iff any other status; connection error carrying the exception iff the transport raised |
| Registry.Check | nvidia/ngc_access_test.py:79-143 | at most two requests; none iff the key or container is empty; the first is the basic-auth token request scoped to the parsed repo; the second exists iff the auth reply is 200 and is the bearer manifest request for the parsed repo and tag |
| Registry.AuthFailureStops | nvidia/ngc_access_test.py:105-116 | any auth result other than 200 ends the check after one request: 401 is unauthorized, another status is an auth error with that status, an exception is a connection error |
| Registry.AuthUnauthorizedIff | nvidia/ngc_access_test.py:110-113 | "auth failed" is reported iff both inputs are given and the token request answered 401 |
| Registry.AuthorizedReadsManifest | nvidia/ngc_access_test.py:107-140 | after a 200 auth reply, the outcome is the manifest reading for the parsed repo and tag |
| Registry.ImageFoundIff | nvidia/ngc_access_test.py:107-131 | success is reported iff both inputs are given and both requests answered 200 |
| Registry.ManifestIgnoredUnlessAuthorized | nvidia/ngc_access_test.py:107-116 | if auth did not answer 200, neither the token nor the manifest reply can affect the run |
| Registry.DocstringRequests | nvidia/ngc_access_test.py:102-127 | for the script's example image, the exact token URL and manifest URL that are requested |
| Menu.Lower | nvidia/ngc_access_test.py:154 | lower-casing keeps the length and maps each character on its own |
| Menu.Dispatch | nvidia/ngc_access_test.py:154-161 | "1" selects the key check, "2" the container check, "q" or "Q" quits, and every other line (including padded ones) is ignored; the four cases are exclusive |
| Menu.Session | nvidia/ngc_access_test.py:146-161 | a run of input lines starts at most one check per line, and only the two checks |
| Menu.LinesRead | nvidia/ngc_access_test.py:146-161 | the loop reads lines up to and including the first quit line, and no earlier line quits |
| Menu.RunMenu | nvidia/ngc_access_test.py:145-161 | the loop starts exactly the checks of Session, reads LinesRead lines, and reports a quit iff some line quits |
| Menu.IgnoredLineChangesNothing | nvidia/ngc_access_test.py:154-161 | removing an unrecognised line does not change what the session runs |
| Menu.QuitEndsSession | nvidia/ngc_access_test.py:160-161 | nothing typed after a quit line is run |
| Menu.QuitIsCaseInsensitive | nvidia/ngc_access_test.py:154-161 | both "q" and "Q" end the session at once |

## Left out

- HTTP transport (`requests.post`, `requests.get`, the 10-second timeouts): these are network I/O. Each reply is an input, and an exception is the `TransportError` reply.
- JSON decoding of the auth reply and `.get('token')`: this is a foreign library call. The token is an opaque input to `Registry.Check`. A body that is not JSON makes `.json()` raise, which the script reports as a connection error; the model does not include that path.
- Console I/O: prompts, printed messages, `input()` and the `.strip()` of the key and container string. Outcomes are datatype constructors, not message text. The checkers take the key and container string after they are stripped.
- Menu.Lower: lower-cases ASCII letters only. No other character lower-cases to "1", "2" or "q", so `Dispatch` is not affected.
- Menu.RunMenu: the input is a finite sequence of lines. Running out of lines ends the loop; the real script would raise `EOFError` from `input()`. The key and container prompts inside the checks are not part of this sequence.
- Request encoding: the headers and the JSON payload are fields of the request values (bearer, content type, accept, model, role, prompt, max tokens), not an encoded HTTP message or JSON document.
- The Docker registry token-auth protocol: the script only calls its endpoints.
