/**
  `BasicAuth(username, password, next)` of prmonitor.go: an HTTP Basic
  Authentication filter. Building the filter computes, once, the credential
  it expects: `Basic ` followed by the standard base 64 encoding of
  `username:password`. Each request whose `Authorization` header is not
  exactly that string is answered with `WWW-Authenticate: Basic` and status
  401 and goes no further; every other request is handed to `next` untouched.
*/
module BasicAuth {
  import opened Bytes
  import Base64
  import opened Http

  /** The prefix of the expected header value: the scheme name and one space. */
  const Scheme: seq<byte> := Ascii("Basic ")

  /** The value of the challenge sent with a rejection. */
  const Challenge: seq<byte> := Ascii("Basic")

  /** The status of a rejection. */
  const Unauthorized := 401

  const AuthorizationField := "Authorization"
  const ChallengeField := "WWW-Authenticate"

  /** The byte `:` that separates the user name from the password. */
  const Colon: byte := ':' as int as byte

  /** `fmt.Sprintf("%s:%s", username, password)` as bytes. */
  function UserPass(username: seq<byte>, password: seq<byte>): seq<byte> {
    username + [Colon] + password
  }

  /**
    The `match` string: the scheme, then the base 64 token of
    `username:password`, four characters for every three bytes. It is never
    empty, so an absent header never matches.
  */
  function Expected(username: seq<byte>, password: seq<byte>): (m: seq<byte>)
    ensures |m| == |Scheme| + 4 * ((|username| + |password| + 3) / 3)
    ensures m[..|Scheme|] == Scheme
  {
    Scheme + Base64.Encode(UserPass(username, password))
  }

  /** What follows the scheme in the expected string decodes to exactly `username:password`. */
  lemma {:induction false} ExpectedDecodes(username: seq<byte>, password: seq<byte>)
    ensures Base64.Decode(Expected(username, password)[|Scheme|..]) == Some(UserPass(username, password))
  {
    Base64.DecodeEncode(UserPass(username, password));
    assert Expected(username, password)[|Scheme|..] == Base64.Encode(UserPass(username, password));
  }

  /** The decision of the filter: the `Authorization` header is byte for byte the expected string. */
  predicate Admits(expected: seq<byte>, r: Request) {
    Get(r.header, AuthorizationField) == expected
  }

  /** The handler `BasicAuth` returns: the expected string it captured and the handler it wraps. */
  class Filter {
    const expected: seq<byte>
    const next: Handler

    /** `BasicAuth(username, password, next)`: the expected string is computed here, once. */
    constructor (username: seq<byte>, password: seq<byte>, next: Handler)
      ensures expected == Expected(username, password) && this.next == next
    {
      this.expected := Expected(username, password);
      this.next := next;
    }

    /**
      Serving one request. A mismatch sets the challenge and status 401 and
      does not call `next`; a match calls `next` once and adds nothing.
    */
    method Serve(w: Response, r: Request)
      modifies w
      ensures Admits(expected, r) ==>
        w.State() == next(r, old(w.State())) && w.handlerCalls == old(w.handlerCalls) + 1
      ensures !Admits(expected, r) ==>
        w.header == Set(old(w.header), ChallengeField, Challenge) &&
        w.status == Unauthorized &&
        w.handlerCalls == old(w.handlerCalls)
    {
      if Get(r.header, AuthorizationField) != expected {
        w.SetHeader(ChallengeField, Challenge);
        w.WriteHeader(Unauthorized);
        return;
      }
      w.Delegate(next, r);
    }
  }

  /**
    The filter admits a request exactly when its `Authorization` header is the
    scheme followed by a canonical base 64 token of `username:password`.
  */
  lemma {:induction false} AdmitsExactly(username: seq<byte>, password: seq<byte>, r: Request)
    ensures var v := Get(r.header, AuthorizationField);
      Admits(Expected(username, password), r) <==>
        |v| >= |Scheme| && v[..|Scheme|] == Scheme &&
        Base64.Decode(v[|Scheme|..]) == Some(UserPass(username, password))
  {
    var v := Get(r.header, AuthorizationField);
    var m := Expected(username, password);
    ExpectedDecodes(username, password);
    if |v| >= |Scheme| && v[..|Scheme|] == Scheme && Base64.Decode(v[|Scheme|..]) == Some(UserPass(username, password)) {
      Base64.EncodeDecode(v[|Scheme|..]);
      assert v == v[..|Scheme|] + v[|Scheme|..];
    }
  }

  /** A request without the header, or with an empty one, is always rejected. */
  lemma {:induction false} MissingHeaderRejected(username: seq<byte>, password: seq<byte>, r: Request)
    requires AuthorizationField !in r.header || r.header[AuthorizationField] == [] || r.header[AuthorizationField][0] == []
    ensures !Admits(Expected(username, password), r)
  {
  }

  /** Two credential pairs are accepted by the same header exactly when they spell the same `username:password`. */
  lemma {:induction false} ExpectedDetermined(u1: seq<byte>, p1: seq<byte>, u2: seq<byte>, p2: seq<byte>)
    ensures Expected(u1, p1) == Expected(u2, p2) <==> UserPass(u1, p1) == UserPass(u2, p2)
  {
    var m1, m2 := Expected(u1, p1), Expected(u2, p2);
    ExpectedDecodes(u1, p1);
    ExpectedDecodes(u2, p2);
    if m1 == m2 {
      assert m1[|Scheme|..] == m2[|Scheme|..];
    }
  }

  /** The decision depends on nothing in the request but its `Authorization` header. */
  lemma {:induction false} DecisionIgnoresOtherFields(expected: seq<byte>, r1: Request, r2: Request)
    requires Get(r1.header, AuthorizationField) == Get(r2.header, AuthorizationField)
    ensures Admits(expected, r1) <==> Admits(expected, r2)
  {
  }

  /** The bytes of `Basic ` followed by a literal token. */
  lemma {:induction false} SchemeThen(token: string)
    requires IsAscii(token)
    ensures IsAscii("Basic " + token) && Ascii("Basic " + token) == Scheme + Ascii(token)
  {
    var s := "Basic " + token;
    assert forall i | 0 <= i < |s| :: s[i] == if i < 6 then "Basic "[i] else token[i - 6];
  }

  /** The test suite's `user` / `pass` credentials as one string. */
  lemma UserPassOfUserPass()
    ensures UserPass(Ascii("user"), Ascii("pass")) == Ascii("user:pass")
  {
  }

  /** The test suite's `foo` / `bar` credentials as one string. */
  lemma UserPassOfFooBar()
    ensures UserPass(Ascii("foo"), Ascii("bar")) == Ascii("foo:bar")
  {
  }

  /** The test suite's accepted `user` / `pass` header is the scheme followed by the token. */
  lemma HeaderUserPass()
    ensures Ascii("Basic dXNlcjpwYXNz") == Scheme + Ascii("dXNlcjpwYXNz")
  {
    SchemeThen("dXNlcjpwYXNz");
  }

  /** The test suite's accepted `foo` / `bar` header is the scheme followed by the token. */
  lemma HeaderFooBar()
    ensures Ascii("Basic Zm9vOmJhcg==") == Scheme + Ascii("Zm9vOmJhcg==")
  {
    SchemeThen("Zm9vOmJhcg==");
  }

  /** The credential string of the test suite's `user` / `pass` filter. */
  lemma {:induction false} VectorUserPass(username: seq<byte>, password: seq<byte>)
    requires username == Ascii("user") && password == Ascii("pass")
    ensures Expected(username, password) == Ascii("Basic dXNlcjpwYXNz")
  {
    UserPassOfUserPass();
    Base64.VectorUserPass();
    HeaderUserPass();
  }

  /** The credential string of the test suite's `foo` / `bar` filter. */
  lemma {:induction false} VectorFooBar(username: seq<byte>, password: seq<byte>)
    requires username == Ascii("foo") && password == Ascii("bar")
    ensures Expected(username, password) == Ascii("Basic Zm9vOmJhcg==")
  {
    UserPassOfFooBar();
    Base64.VectorFooBar();
    HeaderFooBar();
  }
}
