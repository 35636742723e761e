# prmonitor: the Basic Authentication filter, modelled in Dafny

prmonitor serves a dashboard of open pull requests behind HTTP Basic
Authentication. `BasicAuth(username, password, next)` in `prmonitor.go` wraps
a handler. When it is called, it computes once the exact header value it will
accept: `Basic ` followed by the standard padded base 64 encoding of the
bytes `username:password`. The handler it returns compares each request's
`Authorization` header with that value byte for byte. On a mismatch it sets
`WWW-Authenticate: Basic`, writes status 401 and stops. On a match it calls
`next` and does nothing else.

The model has six modules, one per file:

- `Bytes` (`bytes.dfy`): Go's `byte` as a newtype over 0..255, an `Option`
  type, and `Ascii`, which gives the bytes of a string literal. Go strings are
  modelled as `seq<byte>`.
- `Base64` (`base64.dfy`): `Encode` is `base64.StdEncoding.EncodeToString`,
  written out over 3-byte groups with the alphabet of section 4 of RFC 4648.
  `Decode` is a strict decoder used only in proofs: it accepts only canonical
  tokens of section 3.5 of RFC 4648. Lemmas about `Encode` give its length, its
  alphabet and padding, round trips in both directions, injectivity, the test
  vectors of section 10 of RFC 4648, and the two tokens of the test suite.
- `Base64Bits` (`base64_bits.dfy`): a second definition of the encoding, built
  independently on bits. The input becomes one bit stream. The stream is cut
  into 6-bit groups, and a final partial group is filled with zero bits. Each
  group becomes one alphabet character, and `=` pads the output to a multiple
  of 4. `EncodeIsReference` proves that `Encode` matches this definition on
  every input.
- `Http` (`http.dfy`): the parts of `net/http` the filter touches. It has
  header maps with `Get` and `Set`, a request, and a `Response` class with a
  header map, a status code and a count of wrapped-handler calls. It also
  defines `Handler`, a wrapped handler modelled as a function from the
  request and the response state it receives to the response state it leaves.
- `BasicAuth` (`basic_auth.dfy`): `Expected` builds the `match` string. The
  class `Filter` is the returned closure: its constructor is the call to
  `BasicAuth`, which captures `match` and `next`, and `Serve` handles one
  request. The module also holds the lemmas about which requests are admitted.
- `Scenarios` (`scenarios.dfy`): the three Basic Authentication tests of
  `prmonitor_test.go`, replayed on the model as methods whose postconditions
  state the outcomes those tests check.

A `username` that contains `:` makes the credential ambiguous. For example,
`a:b`/`c` and `a`/`b:c` give the same expected string. `ExpectedDetermined`
states this exactly: two pairs share a header exactly when their
`username:password` strings are equal.

## Model

| member | source | states |
|---|---|---|
| `Base64.Encode` | prmonitor.go:10 | the encoding of n bytes is 4·⌈n/3⌉ characters long |
| `Base64.EncodeShape` | prmonitor.go:10 | every character is from `A–Z a–z 0–9 + /` except the last ones, which are `=`: two when n mod 3 = 1, one when n mod 3 = 2, none otherwise |
| `Base64.DecodeEncode` | prmonitor.go:10 | strict decoding gives back the encoded bytes, so the encoding loses nothing |
| `Base64.EncodeDecode` | prmonitor.go:10 | every canonical token is the encoding of what it decodes to, so each byte string has exactly one token |
| `Base64.EncodeInjective` | prmonitor.go:10 | two byte strings have the same encoding exactly when they are equal |
| `Base64.ShortVectors` | prmonitor.go:10 | the RFC 4648 section 10 vectors for `""`, `f`, `fo` and `foo` |
| `Base64.VectorFoob` | prmonitor.go:10 | `foob` encodes to `Zm9vYg==` |
| `Base64.VectorFooba` | prmonitor.go:10 | `fooba` encodes to `Zm9vYmE=` |
| `Base64.VectorFoobar` | prmonitor.go:10 | `foobar` encodes to `Zm9vYmFy` |
| `Base64.VectorUserPass` | prmonitor_test.go:37 | `user:pass` encodes to `dXNlcjpwYXNz` |
| `Base64.VectorFooBar` | prmonitor_test.go:60 | `foo:bar` encodes to `Zm9vOmJhcg==` |
| `Base64Bits.EncodeIsReference` | prmonitor.go:10 | the encoder equals the bit-level encoding process of section 4 of RFC 4648 on every input |
| `BasicAuth.Expected` | prmonitor.go:10 | the expected string starts with `Basic ` and has length 6 + 4·⌈(\|username\| + \|password\| + 1)/3⌉, so it is never empty |
| `BasicAuth.ExpectedDecodes` | prmonitor.go:10 | what follows `Basic ` in the expected string decodes to exactly `username:password` |
| `BasicAuth.ExpectedDetermined` | prmonitor.go:10 | two credential pairs have the same expected string exactly when their `username:password` strings are equal |
| `BasicAuth.AdmitsExactly` | prmonitor.go:10-12 | a request is admitted exactly when its `Authorization` header is `Basic ` followed by a canonical base 64 token that decodes to `username:password` |
| `BasicAuth.MissingHeaderRejected` | prmonitor.go:10-12 | a request with no `Authorization` header, or with an empty one, is never admitted |
| `BasicAuth.DecisionIgnoresOtherFields` | prmonitor.go:12 | two requests with the same `Authorization` value get the same decision, whatever else they carry |
| `BasicAuth.VectorUserPass` | prmonitor_test.go:37-39 | the filter for `user` / `pass` expects `Basic dXNlcjpwYXNz` |
| `BasicAuth.VectorFooBar` | prmonitor_test.go:60-62 | the filter for `foo` / `bar` expects `Basic Zm9vOmJhcg==` |
| `BasicAuth.Filter.constructor` | prmonitor.go:9-10 | building the filter fixes the expected string to `Expected(username, password)` and records `next`; both are constants, so no request can change them |
| `BasicAuth.Filter.Serve` | prmonitor.go:11-18 | on a mismatch, the response's headers become the old ones with `WWW-Authenticate` set to `Basic`, and its status becomes 401. The wrapped handler is not called. On a match, the response state is exactly what `next` leaves, given the request and the old state, and `next` is called exactly once |
| `Http.Response.SetHeader` | prmonitor.go:13 | the field now holds exactly the one value; the other fields, the status and the call count are unchanged |
| `Http.Response.WriteHeader` | prmonitor.go:14 | the status becomes the code; headers and the call count are unchanged |
| `Http.Response.Delegate` | prmonitor.go:17 | the response state becomes the one the handler leaves, and the call count rises by one |
| `Scenarios.RejectsWrongCredentials` | prmonitor_test.go:12-31 | with `user` / `pass`, the header `Basic 490hf` gets status 401 and `WWW-Authenticate: Basic`, and the handler is not called |
| `Scenarios.AdmitsUserPass` | prmonitor_test.go:34-54 | with `user` / `pass`, the header `Basic dXNlcjpwYXNz` reaches the handler once; the status is the handler's 299, and `WWW-Authenticate` stays empty |
| `Scenarios.AdmitsFooBar` | prmonitor_test.go:57-77 | with `foo` / `bar`, the header `Basic Zm9vOmJhcg==` reaches the handler once; the status is 299, and `WWW-Authenticate` stays empty |

## Left out

- `SSLRequired`, `Render`, `SummarizedPullRequest` and the classification of pull requests by age are not part of this model: `prmonitor_test.go` uses them, but their source is not among the modelled files.
- `TestRender` writes `tmp.html`. That is file I/O, so it is not modelled.
- Header names are used as written. `net/http` puts names into canonical form (it stores `WWW-Authenticate` as `Www-Authenticate`). `Set` and `Get` both apply that form, so reads and writes in the filter agree, but the form itself is not modelled.
- `net/http` ignores every `WriteHeader` call after the first one. The model does not capture this rule. The filter calls `WriteHeader` once, on a response that nothing has written yet.
- A wrapped handler is modelled as a function of the request and of the response's headers and status. Response bodies, the handler's other effects, and a handler that panics or blocks are not modelled.
- The program never decodes base 64. `Base64.Decode` exists only so that proofs can state the round trips.
- The comparison is plain string inequality. The program promises no constant-time comparison, and the model promises none either.
- Converting a Go string into its bytes (`[]byte(...)`) and `fmt.Sprintf("%s", ...)` pass bytes through unchanged. The model therefore takes the user name, password and header values as byte strings from the start.
- Concurrency is not modelled. Concurrent requests share only the immutable `match` string and `next`.
