# A model of a minimal Gemini client

The client sends one request line over TLS to port 1965 and reads the whole answer. It then splits the answer into
lines and reads the first line as a status line `<code> <meta>`. The first character of the code picks the action:
`2` shows the body, `3` requests the meta token instead, `4` and `5` report a failure, and anything else is an error.
The TLS handshake trusts a server when the first and last certificates of the chain the TLS library builds for the
host's certificate have the same bytes.

This project models that logic. It is written in Dafny as pure functions, two methods with loops, and lemmas:

- `Strings`: the .NET string operations the client relies on: `StartsWith`, `IndexOf`, `Split`, `Trim` and
  `char.IsWhiteSpace`.
- `Url`: `PrepareLink` (reference to host and page) and the request line `gemini://{host}{page}\r\n`.
- `Status`: status-line parsing, the content-type pre-check and the dispatch on the class digit (`Respond`), the
  body display loop (`DisplayContent`) and the console lines an outcome produces (`Report`).
- `Certificate`: the trust policy `ValidateCertificate`, over raw certificate bytes.
- `Stream`: the read loop `DecodeResponse` over a reused 2048-byte buffer.
- `Exchange`: one hop of `Request` (`Reply`) and the redirect recursion (`Follow`, `Fetch`), bounded by fuel.
- `Results`: the error kinds and the result type.

The network is a parameter (`Exchange.Network`). It gives the chain the TLS library builds for each host's certificate, the successive
reads that answer a request line, and the decoder applied to one read's bytes.

Several behaviours of the code are easy to miss; the model follows the code:

- Status line `51 not found`: the meta token is `not`. The content-type check at Program.cs:45 runs before the
  switch and spares only class 3, so this response is refused as an unsupported content type. It is not reported as
  a permanent failure (`Status.ContentTypeGate`).
- Decoder state: `DecodeResponse` creates a fresh decoder for every read (Program.cs:101), so no decoder state
  crosses a read boundary (`Stream.ReadsDecodedSeparately`). A multi-byte character split between two reads is not
  reassembled, and the model states no chunk-boundary round trip.
- Status-line tokens: the line may have more than two space-separated tokens. Only the first two are used, and only
  a line with no space at all is refused.
- Empty code token: a line such as ` text/gemini` has an empty code. Indexing its first character fails at
  Program.cs:45 or :49, whatever the meta token says (`Status.EmptyCodeFails`).
- Trailing `\r`: the status line keeps its `\r`, because the answer is split at `\n` only. A redirect target
  therefore ends in `\r`. The `Trim` in `PrepareLink` removes it, so the next hop requests the bare target
  (`Url.TrailingWhiteSpaceIgnored`, `Exchange.CarriageReturnIgnored`).

## Model

| member | source | states |
|---|---|---|
| `Strings.IndexOf` | Solution/Program.cs:83 | the result is -1 exactly when the character is absent; otherwise it is a position of that character with no earlier occurrence |
| `Strings.Split` | Solution/Program.cs:33 | the pieces contain no separator and join back to the input with the separator between them; there is one piece exactly when the input has no separator |
| `Strings.SplitFirstTwo` | Solution/Program.cs:42-43 | in `a sep b` followed by nothing or by a separator, with `a` and `b` free of separators, the first two pieces are `a` and `b` |
| `Strings.StartsWithPrefix` | Solution/Program.cs:81 | a text starts with a prefix exactly when it is at least as long and agrees with the prefix character by character, that is, exactly when it is the prefix followed by the rest |
| `Strings.SplitJoin` | Solution/Program.cs:33 | splitting pieces joined by the separator gives those pieces back, empty pieces included, when no piece holds the separator |
| `Strings.SkipWhiteSpace` | Solution/Program.cs:82 | the start of the trimmed text: every character skipped is white space, and the character reached, if any, is not |
| `Strings.BackOverWhiteSpace` | Solution/Program.cs:82 | the end of the trimmed text: the walk back never passes the start, every character passed is white space, and the character before the end reached, if any, is not |
| `Strings.TrimIsTrimmedRun` | Solution/Program.cs:82 | `Trim` keeps one run of the input: only white space lies before and after it, and it neither starts nor ends with white space |
| `Strings.TrimIgnoresTrailingWhiteSpace` | Solution/Program.cs:82 | white space appended to a text that does not start with white space is trimmed away again |
| `Strings.BackOverPrefix` | Solution/Program.cs:82 | where the end of the trimmed text lands depends only on the characters before the starting point of the walk |
| `Url.TrimKeepsScheme` | Solution/Program.cs:81-82 | trimming a reference that starts with `gemini://` keeps that prefix, so dropping 9 characters is always possible |
| `Url.PrepareLink` | Solution/Program.cs:80-89 | the result is an `InvalidFormat` error exactly when the reference lacks the `gemini://` prefix; otherwise the host has no `/` and the page starts with `/`; scheme, host and page give back the trimmed reference, or the whole remainder is the host and the page is `/` |
| `Url.RequestLineFraming` | Solution/Program.cs:30 | the request line starts with `gemini://` and ends in CR LF; for a host with no `/` and a page that starts with `/`, the first `/` after the scheme marks where the host ends |
| `Url.RequestLineOfFullReference` | Solution/Program.cs:26-30 | for a trimmed reference with a `/` after the scheme, the request line is the reference followed by CR LF |
| `Url.RequestLineOfBareHost` | Solution/Program.cs:26-30 | with no `/` after the scheme, the host is the whole trimmed remainder and the page is exactly `/`; the request line is the trimmed reference followed by `/` and CR LF |
| `Url.TrailingWhiteSpaceIgnored` | Solution/Program.cs:81-82 | appending one white-space character to any reference leaves the result of `PrepareLink` unchanged, error or not |
| `Status.ParseStatusLine` | Solution/Program.cs:42-43 | parsing fails with `MalformedStatusLine` exactly when the line has no space; otherwise code and meta are space-free, the line starts with code, a space and meta, and meta is followed by the end of the line or a space |
| `Status.ParseTokens` | Solution/Program.cs:42-43 | a line of the form code, space, meta, then the end or a space, parses to exactly that code and meta |
| `Status.Respond` | Solution/Program.cs:41-65 | a successful outcome has the class of the code's first character; every non-redirect outcome has a `text/gemini` meta; a redirect's target is the meta token; a displayed body is lines 1 to the end |
| `Status.NoSpaceIsMalformed` | Solution/Program.cs:42-43 | a status line without a space is refused as malformed |
| `Status.EmptyCodeFails` | Solution/Program.cs:45-49 | an empty code token is an error whatever the meta token is |
| `Status.ContentTypeGate` | Solution/Program.cs:45-47 | a code whose first character is not `3` with a meta token not starting with `text/gemini` is refused, classes 4 and 5 included |
| `Status.SuccessDisplaysBody` | Solution/Program.cs:49-52 | class 2 with a `text/gemini` meta displays lines 1 to the end, never line 0 |
| `Status.RedirectToMeta` | Solution/Program.cs:53-55 | class 3 redirects to exactly the meta token, whatever its content type |
| `Status.FailuresReported` | Solution/Program.cs:56-61 | class 4 is a temporary failure and class 5 a permanent failure, with no body |
| `Status.UnknownClassFails` | Solution/Program.cs:62-63 | a first character outside 2, 3, 4 and 5 that passed the content-type check is an unknown response code |
| `Status.ResponseOutput` | Solution/Program.cs:49-61 | the console lines of an accepted response: class 2 prints lines 1 to the end, class 3 prints nothing itself, class 4 prints exactly `[Error] temp failure` and class 5 exactly `[Error] permanent failure` |
| `Status.Report` | Solution/Program.cs:56-61 | a displayed outcome prints its body as it is, a redirect prints nothing in this hop, and each failure class prints exactly one line marked `[Error] ` |
| `Status.DisplayContent` | Solution/Program.cs:70-74 | the lines shown are lines 1 to the end of the input, in order, one fewer than the input |
| `Certificate.ValidateCertificate` | Solution/Program.cs:114-119 | the chain is accepted exactly when its first and last elements have equal bytes; a one-element chain is always accepted; an empty chain is an error |
| `Certificate.VerdictIgnoresMiddle` | Solution/Program.cs:116-118 | for any chain length, the verdict depends only on the first and last certificates |
| `Stream.DecodeResponse` | Solution/Program.cs:95-108 | the text returned is each read decoded on its own and concatenated, up to and including the first read of zero bytes |
| `Stream.ReadsDecodedSeparately` | Solution/Program.cs:100-106 | the reads before the end of the stream contribute their separate decodings, whatever follows them |
| `Stream.StopsAtEndOfStream` | Solution/Program.cs:100-106 | nothing after the first zero-byte read is consumed |
| `Exchange.Reply` | Solution/Program.cs:25-35 | a reference without the scheme is an `InvalidFormat` error; a chain the trust policy does not accept ends the hop with `EmptyChain` or `HandshakeRejected`, before any answer is read; every successful hop had its chain accepted |
| `Exchange.ReplyInterpretsAnswer` | Solution/Program.cs:30-34 | once the chain is accepted, a hop's outcome is the response to the lines of the text received for the request line `gemini://{host}{page}\r\n`, split at `\n` |
| `Exchange.Follow` | Solution/Program.cs:53-55 | a hop that is not a redirect is the answer of the whole run; a run of redirects that succeeds never ends on a redirect |
| `Exchange.Fetch` | Solution/Program.cs:25-35 | a request that succeeds was for a `gemini://` reference and ends on a display or a failure report, never a redirect |
| `Exchange.FollowRedirect` | Solution/Program.cs:53-55 | a redirect is the whole exchange again against the target, with one redirect fewer to spend |
| `Exchange.FollowStable` | Solution/Program.cs:53-55 | a run that did not exhaust the redirect bound gives the same answer under any larger bound |
| `Exchange.SelfRedirectNeverEnds` | Solution/Program.cs:53-55 | a reference that redirects to itself exhausts every bound: the recursion has no depth limit |
| `Exchange.CarriageReturnIgnored` | Solution/Program.cs:33-54 | a redirect target that still carries the status line's `\r` gets the same answer as the bare target |

## Left out

- TCP connection, TLS handshake, and socket reads and writes (Program.cs:27-31, 102): these are network I/O. The
  model takes the chain the TLS library builds for the host's certificate and the sequence of reads as parameters. Connection failures are not
  modelled; a rejected chain is the error `HandshakeRejected`.
- UTF-8 decoding (`Encoding.UTF8.GetDecoder`): this is a library decoder. It is a parameter applied to one read's
  bytes. The UTF-8 encoding of the request line is not modelled; the request line is a `string`.
- Console output (Program.cs:15, 57, 60, 72): `Status.Report` and `DisplayContent` return the lines instead of
  printing them. The start banner and `Main`'s hard-coded targets are not modelled.
- Unbounded redirect recursion (Program.cs:54): `Follow` follows at most `fuel` redirects. The error
  `RedirectLimit` belongs to the model, not to the client, where the recursion only stops when the stack runs out.
- `StartsWith` (Program.cs:45, 81): .NET compares with the current culture. The model compares character by
  character, so culture-specific matches (ignorable characters, for one) are not captured.
- Chain building: the chain judged is the one the TLS library builds from the server's certificate and the local
  certificate stores, not the list the server sent. How it is built is not modelled; `Network.certificates` gives it.
- Changing servers: `Network.answer` is one fixed function of the request line, so every hop gets the same answer
  to the same request. A server whose answer changes between hops cannot be represented.
  `Exchange.SelfRedirectNeverEnds` and `Exchange.CarriageReturnIgnored` rely on this.
- X.509 parsing: a certificate is its raw bytes. The callback's `sender`, `certificate` and `sslPolicyErrors`
  arguments are not used by the client and are not modelled.
- `Exchange.Reply`: the exceptions the network layer raises after a successful handshake are not modelled.
