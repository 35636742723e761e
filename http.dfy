/**
  The part of Go's `net/http` that the filter touches: header fields, the
  request it reads, and the response writer it changes. A wrapped handler
  (`http.HandlerFunc`) is a value that maps the request and the response
  state it is handed to the response state it leaves.
*/
module Http {
  import opened Bytes

  /** Header fields: each field name maps to its list of values, as in `http.Header`. */
  type Header = map<string, seq<seq<byte>>>

  /** `Header.Get`: the first value of the field, or the empty string when the field is absent. */
  function Get(h: Header, name: string): seq<byte> {
    if name in h && |h[name]| > 0 then h[name][0] else []
  }

  /** `Header.Set`: the field now holds exactly the one value; every other field is kept. */
  function Set(h: Header, name: string, value: seq<byte>): Header {
    h[name := [value]]
  }

  /** An incoming request; the filter reads only its header fields. */
  datatype Request = Request(header: Header)

  /** What a handler can leave in a response: its header fields and its status code. */
  datatype ResponseState = ResponseState(header: Header, status: int)

  /** A wrapped handler: the response state it leaves, given the request and the state it is handed. */
  type Handler = (Request, ResponseState) -> ResponseState

  /** The status a response reports when no handler writes one. */
  const DefaultStatus := 200

  /**
    A response writer (`http.ResponseWriter`). `handlerCalls` counts how many
    times a wrapped handler has been handed this response.
  */
  class Response {
    var header: Header
    var status: int
    var handlerCalls: nat

    constructor ()
      ensures header == map[] && status == DefaultStatus && handlerCalls == 0
    {
      header, status, handlerCalls := map[], DefaultStatus, 0;
    }

    /** The header fields and status code this response carries. */
    function State(): ResponseState
      reads this
    {
      ResponseState(header, status)
    }

    /** `w.Header().Set(name, value)`. */
    method SetHeader(name: string, value: seq<byte>)
      modifies this
      ensures header == Set(old(header), name, value)
      ensures status == old(status) && handlerCalls == old(handlerCalls)
    {
      header := Set(header, name, value);
    }

    /** `w.WriteHeader(code)`. */
    method WriteHeader(code: int)
      modifies this
      ensures status == code
      ensures header == old(header) && handlerCalls == old(handlerCalls)
    {
      status := code;
    }

    /** `next(w, r)`: hands this response and the request to a wrapped handler. */
    method Delegate(next: Handler, r: Request)
      modifies this
      ensures State() == next(r, old(State()))
      ensures handlerCalls == old(handlerCalls) + 1
    {
      var after := next(r, State());
      header, status := after.header, after.status;
      handlerCalls := handlerCalls + 1;
    }
  }
}
