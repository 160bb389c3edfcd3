/**
 * The parts of Node's `IncomingMessage`, `ServerResponse` and the middleware
 * `next` callback that the core reads and writes.
 */
module Http {
  import opened Wrappers
  import opened Identity

  /** A server response: its status code, its headers, and a record of each `setHeader` and `end` call. */
  class Response {
    var statusCode: int
    var headers: map<string, string>
    var headerWrites: seq<(string, string)>
    var ended: seq<string>

    /** A fresh response, with Node's default status 200. */
    constructor ()
      ensures statusCode == 200 && headers == map[] && headerWrites == [] && ended == []
    {
      statusCode := 200;
      headers := map[];
      headerWrites := [];
      ended := [];
    }

    /** `res.setHeader(name, value)`: replaces any earlier value of the header. */
    method SetHeader(name: string, value: string)
      modifies this
      ensures headers == old(headers)[name := value]
      ensures headerWrites == old(headerWrites) + [(name, value)]
      ensures statusCode == old(statusCode) && ended == old(ended)
    {
      headers := headers[name := value];
      headerWrites := headerWrites + [(name, value)];
    }

    /** `res.end(body)`. */
    method End(body: string)
      modifies this
      ensures ended == old(ended) + [body]
      ensures statusCode == old(statusCode) && headers == old(headers) && headerWrites == old(headerWrites)
    {
      ended := ended + [body];
    }
  }

  /**
   * An incoming request: its headers (keyed by lower-case name, as Node
   * stores them) and the two fields the guard attaches on success.
   */
  class Request {
    var headers: map<string, string>
    var token: Option<string>
    var user: Option<SsoUser>

    constructor (headers: map<string, string>)
      ensures this.headers == headers && token == None && user == None
    {
      this.headers := headers;
      token := None;
      user := None;
    }
  }

  /** The `next` callback of a middleware; the downstream handler it runs is not modelled, only the call. */
  class NextFunction {
    var calls: nat

    constructor ()
      ensures calls == 0
    {
      calls := 0;
    }

    method Call()
      modifies this
      ensures calls == old(calls) + 1
    {
      calls := calls + 1;
    }
  }
}
