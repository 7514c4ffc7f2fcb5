/** The part of the in-flight HTTP request that the strategies read, and the
    response cookie that sticky sessions may append. */
module Http {
  import opened Wrappers

  /** The request context; the accessor may also have no context at all,
      which the strategies receive as `None`. `remoteIp` is the peer
      address, `path` the request path, `stickyCookie` the value of the
      request cookie named "sticky", if any. */
  datatype HttpContext = HttpContext(
    remoteIp: Option<string>,
    path: string,
    stickyCookie: Option<string>)

  datatype SameSiteMode = Unspecified | NoRestriction | Lax | Strict

  /** A `Set-Cookie` appended to the response. */
  datatype Cookie = Cookie(
    name: string,
    value: string,
    expires: int,
    httpOnly: bool,
    sameSite: SameSiteMode)

  /** The request path, or "" when there is no context. */
  function PathOf(context: Option<HttpContext>): string {
    match context
    case Some(c) => c.path
    case None => ""
  }

  /** The peer address, or `None` when there is no context or no address. */
  function RemoteIpOf(context: Option<HttpContext>): Option<string> {
    match context
    case Some(c) => c.remoteIp
    case None => None
  }
}
