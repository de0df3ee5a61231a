/**
 * The parts of a request and a response the session code touches: the
 * request's cookies, and the cookies set on the response, each reduced to
 * its value and max-age.
 */
module Http {
  import opened Wrappers

  type RequestCookies = map<string, string>

  datatype Cookie = Cookie(value: string, maxAge: int)

  type ResponseCookies = map<string, Cookie>

  /** What `delete_cookie` sets: an empty value that expires at once. */
  const Cleared := Cookie("", 0)

  /** `request.cookies.get(name)` as the handlers test it: a missing or empty cookie is no cookie. */
  function Presented(cookies: RequestCookies, name: string): (r: Option<string>)
    ensures r.Some? <==> name in cookies && cookies[name] != ""
    ensures r.Some? ==> r.value == cookies[name]
  {
    if name in cookies && cookies[name] != "" then Some(cookies[name]) else None
  }
}
