/**
  The three Basic Authentication cases of prmonitor_test.go, replayed on the
  model: each builds a fresh response, a request carrying an `Authorization`
  header and a filter, serves the request, and reports what the test inspects.
*/
module Scenarios {
  import opened Bytes
  import opened Http
  import opened BasicAuth

  /** A handler that does nothing. */
  function Idle(r: Request, s: ResponseState): ResponseState {
    s
  }

  /** A handler that writes status 299 and nothing else. */
  function Writes299(r: Request, s: ResponseState): ResponseState {
    s.(status := 299)
  }

  /** A request whose only header field is `Authorization`. */
  function Authorizing(value: seq<byte>): Request {
    Request(map[AuthorizationField := [value]])
  }

  /**
    TestBasicAuthFailure: the filter for `user` / `pass` answers the header
    `Basic 490hf` with 401 and the challenge `Basic`, and never runs its handler.
  */
  method RejectsWrongCredentials() returns (status: int, challenge: seq<byte>, calls: nat)
    ensures status == 401 && challenge == Ascii("Basic") && calls == 0
  {
    var w := new Response();
    var username, password := Ascii("user"), Ascii("pass");
    var filter := new Filter(username, password, Idle);
    filter.Serve(w, Authorizing(Ascii("Basic 490hf")));
    status, challenge, calls := w.status, Get(w.header, ChallengeField), w.handlerCalls;
  }

  /**
    TestBasicAuthSuccess: the filter for `user` / `pass` passes the header
    `Basic dXNlcjpwYXNz` to its handler once; the status is the handler's 299
    and no challenge is set.
  */
  method AdmitsUserPass() returns (status: int, challenge: seq<byte>, calls: nat)
    ensures status == 299 && challenge == [] && calls == 1
  {
    var w := new Response();
    var username, password := Ascii("user"), Ascii("pass");
    var filter := new Filter(username, password, Writes299);
    VectorUserPass(username, password);
    filter.Serve(w, Authorizing(Ascii("Basic dXNlcjpwYXNz")));
    status, challenge, calls := w.status, Get(w.header, ChallengeField), w.handlerCalls;
  }

  /**
    TestBasicAuthSuccess2: the same for `foo` / `bar` and the header
    `Basic Zm9vOmJhcg==`.
  */
  method AdmitsFooBar() returns (status: int, challenge: seq<byte>, calls: nat)
    ensures status == 299 && challenge == [] && calls == 1
  {
    var w := new Response();
    var username, password := Ascii("foo"), Ascii("bar");
    var filter := new Filter(username, password, Writes299);
    VectorFooBar(username, password);
    filter.Serve(w, Authorizing(Ascii("Basic Zm9vOmJhcg==")));
    status, challenge, calls := w.status, Get(w.header, ChallengeField), w.handlerCalls;
  }
}
