/** The parts of Express's request, response and `next` callback that the
    authentication code reads and writes. Header names are lower-case, as Node
    stores them. */
module Http {

  /** One `Set-Cookie` directive queued on a response: `res.cookie(name, value, options)`
      or `res.clearCookie(name, { path })`. */
  datatype Cookie =
    | SetCookie(value: string, httpOnly: bool, secure: bool, sameSite: string, path: string, maxAge: nat)
    | ClearCookie(path: string)

  class Request {
    var headers: map<string, string>

    constructor(headers: map<string, string>)
      ensures this.headers == headers
    {
      this.headers := headers;
    }
  }

  /** A response under construction. `headers` holds what `setHeader` sets; the
      `Set-Cookie` headers that `res.cookie` and `res.clearCookie` append are kept
      apart in `cookies`, as the last directive queued for each cookie name. */
  class Response {
    var headers: map<string, string>
    var cookies: map<string, Cookie>

    constructor()
      ensures headers == map[] && cookies == map[]
    {
      headers := map[];
      cookies := map[];
    }

    /** `res.setHeader(name, value)`. */
    method SetHeader(name: string, value: string)
      modifies this
      ensures headers == old(headers)[name := value]
      ensures cookies == old(cookies)
    {
      headers := headers[name := value];
    }

    /** `res.cookie(name, value, options)` or `res.clearCookie(name, options)`. */
    method QueueCookie(name: string, cookie: Cookie)
      modifies this
      ensures cookies == old(cookies)[name := cookie]
      ensures headers == old(headers)
    {
      cookies := cookies[name := cookie];
    }
  }

  /** The `next` callback of a middleware. Each call hands the request on to the
      downstream handlers; `seen` records, per call, the request headers they saw. */
  class NextFunction {
    var seen: seq<map<string, string>>

    constructor()
      ensures seen == []
    {
      seen := [];
    }

    method Call(req: Request)
      modifies this
      ensures seen == old(seen) + [req.headers]
    {
      seen := seen + [req.headers];
    }
  }
}
